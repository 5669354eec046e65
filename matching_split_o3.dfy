/**
 * MatchingSplitO3: the matching split distance of two trees on one leaf set.
 * Clusters that both trees share are taken out; every remaining non-root
 * internal node of one tree is paired with one of the other (or with padding,
 * "no split"), and the distance is the cheapest pairing, where a pair costs the
 * split distance min(x, n - x) of the two splits, x the size of their symmetric
 * difference.
 */
module MatchingSplitO3 {
  import opened Wrappers
  import opened PalTree
  import opened ClustIntersectInfo
  import opened TreeCmpUtils
  import opened TreeCmpUtilsTriplets
  import opened SplitDist
  import ClusterDist
  import opened CostMatrix
  import opened LapSolver

  /**
   * The row (or column) candidates of one tree, for i < sizeIt: its internal
   * node i, skipped when it is the root (the last internal node) or has an
   * identical cluster in the other tree (its flag is set), and padding for
   * every i at or beyond its internal-node count.
   */
  function O3Sel(flags: seq<bool>, sizeIt: nat): seq<Option<Slot<nat>>>
  {
    seq(sizeIt, i requires 0 <= i < sizeIt =>
      if i < |flags| then (if i == |flags| - 1 || flags[i] then None else Some(Node(i)))
      else Some(Pad))
  }

  /** Which slots the cost arithmetic can handle: node numbers in range, never two paddings. */
  predicate CostArgs(cs1: seq<int>, cs2: seq<int>, inter: seq<seq<int>>, x: Slot<nat>, y: Slot<nat>)
  {
    && !(x.Pad? && y.Pad?)
    && (x.Node? ==> x.node < |cs1| && x.node < |inter|)
    && (y.Node? ==> y.node < |cs2|)
    && (x.Node? && y.Node? ==> y.node < |inter[x.node]|)
  }

  /**
   * One cell, as getDistance computes it from the clade sizes cs1, cs2 and the
   * intersection sizes inter: for two nodes min(x1, n - x1) with
   * x1 = |u| + |v| - 2·|u∩v|; against padding min(n - |c|, |c|) for the node's cluster c.
   */
  function O3Cost(n: int, cs1: seq<int>, cs2: seq<int>, inter: seq<seq<int>>, x: Slot<nat>, y: Slot<nat>): int
    requires CostArgs(cs1, cs2, inter, x, y)
  {
    if x.Node? && y.Node? then
      var x1 := cs1[x.node] + cs2[y.node] - 2 * inter[x.node][y.node];
      Min(x1, n - x1)
    else if x.Pad? then Min(n - cs2[y.node], cs2[y.node])
    else Min(n - cs1[x.node], cs1[x.node])
  }

  /** The flags calcClustIntersectMatrix raises: node a of one tree occurs in a pair of identical clusters. */
  ghost function EqFlags(g: IdGroup, t1: Tree, t2: Tree, first: bool): (f: seq<bool>)
    requires Valid(t1) && Valid(t2)
    ensures |f| == if first then |t1.children| else |t2.children|
  {
    seq(if first then |t1.children| else |t2.children|, a =>
      exists p :: p in EqPairs(g, t1, t2) && (if first then p.t1IntId else p.t2IntId) == a)
  }

  /** The matrix side: max(size1 - eq, size2 - eq), eq the number of identical-cluster pairs. */
  ghost function O3Size(g: IdGroup, t1: Tree, t2: Tree): int
    requires Valid(t1) && Valid(t2)
  {
    var eq := |EqPairs(g, t1, t2)|;
    Max(|t1.children| - eq, |t2.children| - eq)
  }

  ghost function SizeIt(t1: Tree, t2: Tree): nat
  {
    Max(|t1.children|, |t2.children|)
  }

  /** The rows of the matrix: the kept internal nodes of t1, then padding. */
  ghost function O3Rows(g: IdGroup, t1: Tree, t2: Tree): seq<Slot<nat>>
    requires Valid(t1) && Valid(t2)
  {
    Kept(O3Sel(EqFlags(g, t1, t2, true), SizeIt(t1, t2)))
  }

  /** The columns of the matrix: the kept internal nodes of t2, then padding. */
  ghost function O3Cols(g: IdGroup, t1: Tree, t2: Tree): seq<Slot<nat>>
    requires Valid(t1) && Valid(t2)
  {
    Kept(O3Sel(EqFlags(g, t1, t2, false), SizeIt(t1, t2)))
  }

  /** The cost of a pair of slots stated on the clusters: the split distance, or the distance to no split. */
  ghost function SplitCost(g: IdGroup, t1: Tree, t2: Tree, x: Slot<nat>, y: Slot<nat>): int
    requires Shaped(t1) && Shaped(t2) && !(x.Pad? && y.Pad?)
    requires x.Node? ==> x.node < |t1.children|
    requires y.Node? ==> y.node < |t2.children|
  {
    var n := |t1.names|;
    if x.Node? && y.Node? then GetDist1Bit(Cluster(g, t1, Int(x.node)), Cluster(g, t2, Int(y.node)), n)
    else if x.Pad? then GetDistToOAsMinBit(Cluster(g, t2, Int(y.node)), n)
    else GetDistToOAsMinBit(Cluster(g, t1, Int(x.node)), n)
  }

  /** What every slot kept from O3Sel is: a non-root internal node, or padding when the tree is the smaller one. */
  lemma O3SelKept(flags: seq<bool>, sizeIt: nat, x: Slot<nat>)
    requires x in Kept(O3Sel(flags, sizeIt))
    ensures x.Node? ==> x.node + 1 < |flags| && !flags[x.node]
    ensures x.Pad? ==> |flags| < sizeIt
  {
    KeptFrom(O3Sel(flags, sizeIt), x);
  }

  /** One entry of the matrix: the cost of a kept row and a kept column, 0 outside them. */
  ghost function O3Entry(g: IdGroup, t1: Tree, t2: Tree, a: nat, b: nat): int
    requires Valid(t1) && Valid(t2)
  {
    var rows, cols := O3Rows(g, t1, t2), O3Cols(g, t1, t2);
    if a < |rows| && b < |cols| then
      O3SelKept(EqFlags(g, t1, t2, true), SizeIt(t1, t2), rows[a]);
      O3SelKept(EqFlags(g, t1, t2, false), SizeIt(t1, t2), cols[b]);
      SplitCost(g, t1, t2, rows[a], cols[b])
    else 0
  }

  /** The matrix that getDistance builds, stated on the clusters of the two trees. */
  ghost function O3Matrix(g: IdGroup, t1: Tree, t2: Tree): (m: seq<seq<int>>)
    requires Valid(t1) && Valid(t2) && O3Size(g, t1, t2) >= 0
    ensures |m| == O3Size(g, t1, t2) && Square(m)
    ensures forall a, b :: 0 <= a < |m| && 0 <= b < |m| ==> m[a][b] == O3Entry(g, t1, t2, a, b)
  {
    var size := O3Size(g, t1, t2);
    seq(size, a requires 0 <= a < size => seq(size, b requires 0 <= b < size => O3Entry(g, t1, t2, a, b)))
  }

  datatype IntNodePair = IntNodePair(t1Node: int, t2Node: int, cost: int)

  datatype AlignInfo = AlignInfo(aln: seq<IntNodePair>, useClusters: bool, t1: Tree, t2: Tree, totalCost: int)

  /** The node number of a slot, -1 for padding ("unpaired"). */
  function SlotId(x: Slot<nat>): int
  {
    if x.Node? then x.node else -1
  }

  /** An id map of sizeIt entries: the numbers of the kept slots in order, -1 for padding and after them. */
  predicate IdMapIs(ids: seq<int>, kept: seq<Slot<nat>>, sizeIt: nat)
  {
    && |ids| == sizeIt && |kept| <= sizeIt
    && (forall k :: 0 <= k < |kept| ==> ids[k] == SlotId(kept[k]))
    && (forall k :: |kept| <= k < sizeIt ==> ids[k] == -1)
  }

  /**
   * The alignment id map: the numbers of the non-root internal nodes without
   * an identical cluster on the other side, in order, then -1 up to sizeIt.
   */
  method IdMap(flags: seq<bool>, sizeIt: nat) returns (ids: seq<int>)
    requires |flags| <= sizeIt
    ensures IdMapIs(ids, Kept(O3Sel(flags, sizeIt)), sizeIt)
  {
    var costId2Num := new int[sizeIt];
    var ii := StoreKeptIds(flags, sizeIt, costId2Num);
    ghost var front := Kept(O3Sel(flags, sizeIt)[..|flags|]);
    PadsAfter(flags, sizeIt);
    for i := ii to sizeIt
      invariant forall k :: 0 <= k < ii ==> costId2Num[k] == SlotId(front[k])
      invariant forall k :: ii <= k < i ==> costId2Num[k] == -1
    {
      costId2Num[i] := -1;
    }
    ids := costId2Num[..];
  }

  /** The first loop of the id map: the kept node numbers, written from position 0 on. */
  method StoreKeptIds(flags: seq<bool>, sizeIt: nat, costId2Num: array<int>) returns (ii: nat)
    requires |flags| <= sizeIt == costId2Num.Length
    modifies costId2Num
    ensures ii == |Kept(O3Sel(flags, sizeIt)[..|flags|])|
    ensures forall k :: 0 <= k < ii ==> costId2Num[k] == SlotId(Kept(O3Sel(flags, sizeIt)[..|flags|])[k])
  {
    var sel := O3Sel(flags, sizeIt)[..|flags|];
    ghost var front := Kept(sel);
    ii := 0;
    for i := 0 to |flags|
      invariant ii == |Kept(sel[..i])| && Kept(sel[..i]) <= front
      invariant forall k :: 0 <= k < ii ==> costId2Num[k] == SlotId(front[k])
    {
      KeptSnoc(sel, i);
      KeptPrefix(sel, i + 1);
      if i == |flags| - 1 || flags[i] {
        continue;
      }
      costId2Num[ii] := i;
      ii := ii + 1;
    }
    assert sel[..|flags|] == sel;
  }

  /** After the internal nodes, O3Sel only pads: the kept slots are the kept nodes followed by paddings. */
  lemma {:induction false} PadsAfter(flags: seq<bool>, sizeIt: nat)
    requires |flags| <= sizeIt
    ensures Kept(O3Sel(flags, sizeIt)[..|flags|]) <= Kept(O3Sel(flags, sizeIt))
    ensures forall k :: |Kept(O3Sel(flags, sizeIt)[..|flags|])| <= k < |Kept(O3Sel(flags, sizeIt))| ==>
              Kept(O3Sel(flags, sizeIt))[k] == Pad
    ensures |Kept(O3Sel(flags, sizeIt))| == |Kept(O3Sel(flags, sizeIt)[..|flags|])| + (sizeIt - |flags|)
  {
    PadsFrom(flags, sizeIt, sizeIt);
    assert O3Sel(flags, sizeIt)[..sizeIt] == O3Sel(flags, sizeIt);
  }

  lemma {:induction false} PadsFrom(flags: seq<bool>, sizeIt: nat, i: nat)
    requires |flags| <= i <= sizeIt
    ensures Kept(O3Sel(flags, sizeIt)[..|flags|]) <= Kept(O3Sel(flags, sizeIt)[..i])
    ensures forall k :: |Kept(O3Sel(flags, sizeIt)[..|flags|])| <= k < |Kept(O3Sel(flags, sizeIt)[..i])| ==>
              Kept(O3Sel(flags, sizeIt)[..i])[k] == Pad
    ensures |Kept(O3Sel(flags, sizeIt)[..i])| == |Kept(O3Sel(flags, sizeIt)[..|flags|])| + (i - |flags|)
  {
    if i > |flags| {
      PadsFrom(flags, sizeIt, i - 1);
      KeptSnoc(O3Sel(flags, sizeIt), i - 1);
    }
  }

  /**
   * When every recorded pair of identical clusters takes out one node of each
   * tree (the root pair among them), the kept rows and columns are exactly
   * O3Size, so the loops fill the matrix.
   */
  lemma O3Fits(flags1: seq<bool>, flags2: seq<bool>, eq: nat)
    requires |Kept(O3Sel(flags1, |flags1|))| + eq == |flags1|
    requires |Kept(O3Sel(flags2, |flags2|))| + eq == |flags2|
    ensures var sizeIt := Max(|flags1|, |flags2|);
            var size := Max(|flags1| - eq, |flags2| - eq);
            |Kept(O3Sel(flags1, sizeIt))| == size && |Kept(O3Sel(flags2, sizeIt))| == size
  {
    var sizeIt := Max(|flags1|, |flags2|);
    PadsAfter(flags1, sizeIt);
    PadsAfter(flags2, sizeIt);
    SelPrefix(flags1, sizeIt);
    SelPrefix(flags2, sizeIt);
  }

  lemma SelPrefix(flags: seq<bool>, sizeIt: nat)
    requires |flags| <= sizeIt
    ensures O3Sel(flags, sizeIt)[..|flags|] == O3Sel(flags, |flags|)
  {
  }

  /** Each cell computed from the table equals the split distance of the two clusters. */
  lemma O3CostIsSplitCost(m: ClustIntersectInfoMatrix, x: Slot<nat>, y: Slot<nat>)
    requires TableFilled(m) && !(x.Pad? && y.Pad?)
    requires x.Node? ==> x.node < m.intT1Num
    requires y.Node? ==> y.node < m.intT2Num
    ensures CostArgs(m.cSize1[..], m.cSize2[..], Rows(m.intCladeSize), x, y)
    ensures O3Cost(|m.t1.names|, m.cSize1[..], m.cSize2[..], Rows(m.intCladeSize), x, y)
            == SplitCost(m.idGroup, m.t1, m.t2, x, y)
  {
    var g := m.idGroup;
    if x.Node? && y.Node? {
      O3PairCost(m, x.node, y.node);
    } else if x.Pad? {
      ClusterSize(g, m.t2, Int(y.node));
      assert m.cSize2[y.node] == |Leaves(m.t2, Int(y.node))|;
    } else {
      ClusterSize(g, m.t1, Int(x.node));
      assert m.cSize1[x.node] == |Leaves(m.t1, Int(x.node))|;
    }
  }

  /** A cell of two real nodes: x1 is the size of the symmetric difference of their clusters. */
  lemma O3PairCost(m: ClustIntersectInfoMatrix, a: nat, b: nat)
    requires TableFilled(m) && a < m.intT1Num && b < m.intT2Num
    ensures CostArgs(m.cSize1[..], m.cSize2[..], Rows(m.intCladeSize), Node(a), Node(b))
    ensures O3Cost(|m.t1.names|, m.cSize1[..], m.cSize2[..], Rows(m.intCladeSize), Node(a), Node(b))
            == SplitCost(m.idGroup, m.t1, m.t2, Node(a), Node(b))
  {
    var u, v := Cluster(m.idGroup, m.t1, Int(a)), Cluster(m.idGroup, m.t2, Int(b));
    CladeSizes(m, a, b);
    CellIsIntersection(m, a, b);
    ClusterDist.XorByAnd(u, v);
    var x1 := m.cSize1[a] + m.cSize2[b] - 2 * m.intCladeSize[a, b];
    assert Rows(m.intCladeSize)[a][b] == m.intCladeSize[a, b];
    assert x1 == |SplitDist.Xor(u, v)|;
  }

  /** A real cell lies between 0 and n/2, as the distance between two splits of n leaves does. */
  lemma SplitCostBound(g: IdGroup, t1: Tree, t2: Tree, a: nat, b: nat)
    requires Valid(t1) && Valid(t2) && Covers(g, t1) && Covers(g, t2) && |g| == |t1.names|
    requires a < |t1.children| && b < |t2.children|
    ensures 0 <= SplitCost(g, t1, t2, Node(a), Node(b)) && 2 * SplitCost(g, t1, t2, Node(a), Node(b)) <= |t1.names|
  {
    var c1, c2 := Cluster(g, t1, Int(a)), Cluster(g, t2, Int(b));
    ClusterIds(g, t1, Int(a));
    ClusterIds(g, t2, Int(b));
    var x := Xor(c1, c2);
    RangeSetCard(|g|);
    forall k | k in x
      ensures k in RangeSet(|g|)
    {
      var l: nat := k;
      assert l in RangeSet(|g|);
    }
    SubsetCard(x, RangeSet(|g|));
  }

  /** Every entry of O3Matrix lies between 0 and n/2, n the number of leaves. */
  lemma O3EntryBound(g: IdGroup, t1: Tree, t2: Tree, a: nat, b: nat)
    requires Valid(t1) && Valid(t2) && Covers(g, t1) && Covers(g, t2) && |g| == |t1.names|
    ensures 0 <= O3Entry(g, t1, t2, a, b) && 2 * O3Entry(g, t1, t2, a, b) <= |t1.names|
  {
    var rows, cols := O3Rows(g, t1, t2), O3Cols(g, t1, t2);
    if a < |rows| && b < |cols| {
      var x, y := rows[a], cols[b];
      O3SelKept(EqFlags(g, t1, t2, true), SizeIt(t1, t2), x);
      O3SelKept(EqFlags(g, t1, t2, false), SizeIt(t1, t2), y);
      if x.Node? && y.Node? {
        SplitCostBound(g, t1, t2, x.node, y.node);
      } else if x.Pad? {
        ClusterBound(g, t2, y.node);
      } else {
        ClusterBound(g, t1, x.node);
      }
    }
  }

  /** A cluster has at most |g| ids. */
  lemma ClusterBound(g: IdGroup, t: Tree, a: nat)
    requires Valid(t) && Covers(g, t) && a < |t.children|
    ensures |Cluster(g, t, Int(a))| <= |g|
  {
    var c := Cluster(g, t, Int(a));
    ClusterIds(g, t, Int(a));
    RangeSetCard(|g|);
    forall k | k in c
      ensures k in RangeSet(|g|)
    {
      var l: nat := k;
      assert l in RangeSet(|g|);
    }
    SubsetCard(c, RangeSet(|g|));
  }

  /**
   * The matching split distance is at least 0 and at most size·⌊n/2⌋: each
   * of the size pairs of the optimal pairing costs at most half the leaves.
   */
  lemma O3DistanceBounds(g: IdGroup, t1: Tree, t2: Tree)
    requires Valid(t1) && Valid(t2) && Covers(g, t1) && Covers(g, t2) && |g| == |t1.names|
    requires O3Size(g, t1, t2) >= 0
    ensures 0 <= Optimum(O3Matrix(g, t1, t2)).0
    ensures Optimum(O3Matrix(g, t1, t2)).0 <= O3Size(g, t1, t2) * (|t1.names| / 2)
  {
    var o := O3Matrix(g, t1, t2);
    var n := |t1.names|;
    forall a, b | 0 <= a < |o| && 0 <= b < |o[a]|
      ensures 0 <= o[a][b] <= n / 2
    {
      O3EntryBound(g, t1, t2, a, b);
    }
    OptimumWithin(o, 0, n / 2);
  }

  class MatchingSplitMetricO3 {
    var costId2NumT1: seq<int>
    var costId2NumT2: seq<int>
    var rowsol: array<int>
    var colsol: array<int>
    var assigncost: array2<int>
    var cIntM: ClustIntersectInfoMatrix?

    /** Nothing computed yet; the Java fields start as null, here as empty arrays. */
    constructor ()
      ensures cIntM == null && costId2NumT1 == [] && costId2NumT2 == []
      ensures rowsol.Length == 0 && colsol.Length == 0 && assigncost.Length0 == 0
    {
      costId2NumT1, costId2NumT2 := [], [];
      rowsol := new int[0];
      colsol := new int[0];
      assigncost := new int[0, 0];
      cIntM := null;
    }

    /**
     * getDistance: the least total cost of a pairing of the uncommon clusters,
     * over the assignment matrix O3Matrix.  Java's NegativeArraySizeException
     * and ArrayIndexOutOfBoundsException, thrown when the recorded identical
     * pairs do not take out one node of each tree apiece, are Failures.  With
     * genAlignments the two id maps for getAlignment are kept.
     */
    method GetDistance(t1: Tree, t2: Tree, genAlignments: bool) returns (r: Result<int, string>)
      requires Valid(t1) && Valid(t2) && Covers(LeafIdGroup(t1), t1) && Covers(LeafIdGroup(t1), t2)
      modifies this
      ensures cIntM != null && fresh(cIntM) && cIntM.Valid()
      ensures cIntM.t1 == t1 && cIntM.t2 == t2 && cIntM.eqClustList == EqPairs(LeafIdGroup(t1), t1, t2)
      ensures var g := LeafIdGroup(t1);
              r.Success? <==> (O3Size(g, t1, t2) >= 0 &&
                (O3Size(g, t1, t2) == 0 || !Overflows(|O3Rows(g, t1, t2)|, |O3Cols(g, t1, t2)|, O3Size(g, t1, t2))))
      ensures r.Success? && O3Size(LeafIdGroup(t1), t1, t2) == 0 ==> r.value == 0
      ensures r.Success? && O3Size(LeafIdGroup(t1), t1, t2) > 0 ==>
                var m := O3Matrix(LeafIdGroup(t1), t1, t2);
                && Rows(assigncost) == m
                && IsPerm(rowsol[..], |m|) && r.value == Total(m, rowsol[..])
                && r.value == Optimum(m).0
      ensures r.Success? && O3Size(LeafIdGroup(t1), t1, t2) > 0 && genAlignments ==>
                IdMapIs(costId2NumT1, O3Rows(LeafIdGroup(t1), t1, t2), SizeIt(t1, t2))
                && IdMapIs(costId2NumT2, O3Cols(LeafIdGroup(t1), t1, t2), SizeIt(t1, t2))
      ensures r.Success? ==> rowsol.Length == colsol.Length == assigncost.Length0 == assigncost.Length1
    {
      var idGroup := LeafIdGroup(t1);
      var m := CalcClustIntersectMatrix(t1, t2, idGroup);
      FlagsAre(m);
      cIntM := m;
      r := Measure(m, genAlignments);
    }

    /** getDistance once the table m is filled: the matrix side, its two edge cases, then the solution. */
    method Measure(m: ClustIntersectInfoMatrix, genAlignments: bool) returns (r: Result<int, string>)
      requires TableFilled(m) && m.eqClustList == EqPairs(m.idGroup, m.t1, m.t2)
      requires m.eqClustT1[..] == EqFlags(m.idGroup, m.t1, m.t2, true)
      requires m.eqClustT2[..] == EqFlags(m.idGroup, m.t1, m.t2, false)
      modifies this
      ensures cIntM == old(cIntM)
      ensures var g, t1, t2 := m.idGroup, m.t1, m.t2;
              r.Success? <==> (O3Size(g, t1, t2) >= 0 &&
                (O3Size(g, t1, t2) == 0 || !Overflows(|O3Rows(g, t1, t2)|, |O3Cols(g, t1, t2)|, O3Size(g, t1, t2))))
      ensures r.Success? && O3Size(m.idGroup, m.t1, m.t2) == 0 ==> r.value == 0
      ensures r.Success? && O3Size(m.idGroup, m.t1, m.t2) > 0 ==>
                var o := O3Matrix(m.idGroup, m.t1, m.t2);
                && Rows(assigncost) == o
                && IsPerm(rowsol[..], |o|) && r.value == Total(o, rowsol[..])
                && r.value == Optimum(o).0
      ensures r.Success? && O3Size(m.idGroup, m.t1, m.t2) > 0 && genAlignments ==>
                IdMapIs(costId2NumT1, O3Rows(m.idGroup, m.t1, m.t2), SizeIt(m.t1, m.t2))
                && IdMapIs(costId2NumT2, O3Cols(m.idGroup, m.t1, m.t2), SizeIt(m.t1, m.t2))
      ensures r.Success? ==> rowsol.Length == colsol.Length == assigncost.Length0 == assigncost.Length1
    {
      var size1, size2, eqClustSize := m.intT1Num, m.intT2Num, |m.eqClustList|;
      var size := Max(size1 - eqClustSize, size2 - eqClustSize);
      if size < 0 {
        return Failure("NegativeArraySizeException");
      }
      if size == 0 {
        assigncost := new int[0, 0];
        rowsol := new int[0];
        colsol := new int[0];
        return Success(0);
      }
      r := Solve(m, size, genAlignments);
    }

    /** The second half of getDistance, once the matrix side size is known to be positive. */
    method Solve(m: ClustIntersectInfoMatrix, size: nat, genAlignments: bool) returns (r: Result<int, string>)
      requires TableFilled(m) && m.eqClustList == EqPairs(m.idGroup, m.t1, m.t2)
      requires m.eqClustT1[..] == EqFlags(m.idGroup, m.t1, m.t2, true)
      requires m.eqClustT2[..] == EqFlags(m.idGroup, m.t1, m.t2, false)
      requires size == O3Size(m.idGroup, m.t1, m.t2) > 0
      modifies this
      ensures cIntM == old(cIntM)
      ensures var g, t1, t2 := m.idGroup, m.t1, m.t2;
              r.Success? <==> !Overflows(|O3Rows(g, t1, t2)|, |O3Cols(g, t1, t2)|, size)
      ensures r.Success? ==>
                var o := O3Matrix(m.idGroup, m.t1, m.t2);
                && Rows(assigncost) == o
                && IsPerm(rowsol[..], |o|) && r.value == Total(o, rowsol[..])
                && r.value == Optimum(o).0
      ensures r.Success? && genAlignments ==>
                IdMapIs(costId2NumT1, O3Rows(m.idGroup, m.t1, m.t2), SizeIt(m.t1, m.t2))
                && IdMapIs(costId2NumT2, O3Cols(m.idGroup, m.t1, m.t2), SizeIt(m.t1, m.t2))
      ensures r.Success? ==> rowsol.Length == colsol.Length == assigncost.Length0 == assigncost.Length1
    {
      if genAlignments {
        StoreIdMaps(m);
      }
      var filled := BuildO3(m, size);
      if filled.Failure? {
        return Failure(filled.error);
      }
      var metric := Assign(filled.value);
      return Success(metric);
    }

    /** The two id maps of getAlignment, built when alignments are asked for. */
    method StoreIdMaps(m: ClustIntersectInfoMatrix)
      requires m.Valid() && Valid(m.t1) && Valid(m.t2)
      requires m.eqClustT1[..] == EqFlags(m.idGroup, m.t1, m.t2, true)
      requires m.eqClustT2[..] == EqFlags(m.idGroup, m.t1, m.t2, false)
      modifies this
      ensures IdMapIs(costId2NumT1, O3Rows(m.idGroup, m.t1, m.t2), SizeIt(m.t1, m.t2))
      ensures IdMapIs(costId2NumT2, O3Cols(m.idGroup, m.t1, m.t2), SizeIt(m.t1, m.t2))
      ensures cIntM == old(cIntM)
    {
      var sizeIt := Max(m.intT1Num, m.intT2Num);
      costId2NumT1 := IdMap(m.eqClustT1[..], sizeIt);
      costId2NumT2 := IdMap(m.eqClustT2[..], sizeIt);
    }

    /** Solves the assignment problem of the filled matrix and keeps the solution. */
    method Assign(cells: array2<int>) returns (metric: int)
      requires cells.Length0 == cells.Length1
      modifies this
      ensures assigncost == cells && fresh(rowsol) && fresh(colsol)
      ensures rowsol.Length == colsol.Length == cells.Length0
      ensures Square(Rows(cells)) && IsPerm(rowsol[..], cells.Length0)
      ensures metric == Total(Rows(cells), rowsol[..]) && metric == Optimum(Rows(cells)).0
      ensures cIntM == old(cIntM) && costId2NumT1 == old(costId2NumT1) && costId2NumT2 == old(costId2NumT2)
    {
      assigncost := cells;
      rowsol := new int[cells.Length0];
      colsol := new int[cells.Length0];
      metric := LapShort(cells.Length0, assigncost, rowsol, colsol);
      OptimalIsOptimum(Rows(assigncost), metric, rowsol[..]);
    }

    /**
     * getAlignment: the pairs of identical non-root clusters at cost 0, then
     * for every row i of the last matrix the pair of id-map entries that the
     * solver matched, at that cell's cost; the total is the sum of those cells.
     * Java stores them in an array of max(size1, size2) - 1 entries: a negative
     * length or a pair beyond its end is a Failure.
     */
    method GetAlignment() returns (r: Result<AlignInfo, string>)
      requires AlignReady()
      ensures var pairs := EqAlignment(cIntM.eqClustList, cIntM.cSize1[..], |cIntM.t1.names|) + SolverAlignment();
              r.Success? <==> |pairs| <= SizeIt(cIntM.t1, cIntM.t2) - 1
      ensures r.Success? ==> r.value.aln == EqAlignment(cIntM.eqClustList, cIntM.cSize1[..], |cIntM.t1.names|) + SolverAlignment()
      ensures r.Success? ==> r.value.totalCost == Along(Rows(assigncost), rowsol[..])
      ensures r.Success? && Square(Rows(assigncost)) && IsPerm(rowsol[..], assigncost.Length0) ==>
                r.value.totalCost == Total(Rows(assigncost), rowsol[..])
      ensures r.Success? ==> !r.value.useClusters && r.value.t1 == cIntM.t1 && r.value.t2 == cIntM.t2
    {
      var t1, t2 := cIntM.t1, cIntM.t2;
      var leafSize := |t1.names|;
      var size := Max(cIntM.intT1Num, cIntM.intT2Num);
      var sizeWithoutRoot := size - 1;
      var list := cIntM.eqClustList;
      var cs1 := cIntM.cSize1[..];
      ghost var total := |EqAlignment(list, cs1, leafSize)| + rowsol.Length;
      if sizeWithoutRoot < 0 {
        return Failure("NegativeArraySizeException");
      }
      var aln, ok := ListEqPairs(list, cs1, leafSize, sizeWithoutRoot);
      if !ok {
        return Failure("ArrayIndexOutOfBoundsException");
      }
      ghost var eqPart := aln;
      var totalCost := 0;
      ghost var cells := Rows(assigncost);
      for i := 0 to rowsol.Length
        invariant aln == eqPart + SolverPrefix(i) && |aln| <= sizeWithoutRoot && |SolverPrefix(i)| == i
        invariant totalCost == Along(cells, rowsol[..i])
      {
        var j := rowsol[i];
        var cost := assigncost[i, j];
        assert rowsol[..i + 1][..i] == rowsol[..i];
        if |aln| == sizeWithoutRoot {
          return Failure("ArrayIndexOutOfBoundsException");
        }
        totalCost := totalCost + cost;
        aln := aln + [IntNodePair(costId2NumT1[i], costId2NumT2[j], cost)];
      }
      assert rowsol[..rowsol.Length] == rowsol[..];
      if Square(Rows(assigncost)) && IsPerm(rowsol[..], assigncost.Length0) {
        AlongIsTotal(Rows(assigncost), rowsol[..]);
      }
      return Success(AlignInfo(aln, false, t1, t2, totalCost));
    }

    /** What getAlignment reads is in range: the state getDistance leaves behind. */
    ghost predicate AlignReady()
      reads this, cIntM, rowsol
    {
      && cIntM != null && cIntM.Valid()
      && (forall p :: p in cIntM.eqClustList ==> p.t1IntId < cIntM.cSize1.Length)
      && rowsol.Length <= assigncost.Length0 && rowsol.Length <= |costId2NumT1|
      && (forall i :: 0 <= i < rowsol.Length ==> 0 <= rowsol[i] < assigncost.Length1 && rowsol[i] < |costId2NumT2|)
    }

    /** The solver's pairs of the first k rows. */
    ghost function SolverPrefix(k: nat): (r: seq<IntNodePair>)
      reads this, rowsol, assigncost
      requires k <= rowsol.Length && rowsol.Length <= assigncost.Length0 && rowsol.Length <= |costId2NumT1|
      requires forall i :: 0 <= i < rowsol.Length ==> 0 <= rowsol[i] < assigncost.Length1 && rowsol[i] < |costId2NumT2|
      ensures |r| == k
    {
      if k == 0 then []
      else SolverPrefix(k - 1) + [IntNodePair(costId2NumT1[k - 1], costId2NumT2[rowsol[k - 1]], assigncost[k - 1, rowsol[k - 1]])]
    }

    ghost function SolverAlignment(): seq<IntNodePair>
      reads this, cIntM, rowsol, assigncost
      requires AlignReady()
    {
      SolverPrefix(rowsol.Length)
    }
  }

  /** The recorded identical pairs at cost 0, without the pair of roots (the cluster of all n leaves). */
  function EqAlignment(list: seq<ClustPair>, cs1: seq<int>, leafSize: int): seq<IntNodePair>
    requires forall p :: p in list ==> p.t1IntId < |cs1|
  {
    if list == [] then []
    else
      var p := list[|list| - 1];
      EqAlignment(list[..|list| - 1], cs1, leafSize) + (if cs1[p.t1IntId] == leafSize then [] else [IntNodePair(p.t1IntId, p.t2IntId, 0)])
  }

  /**
   * The fill loops of getDistance over the table m: a size×size matrix that
   * is O3Matrix, or Failure when the kept rows or columns overflow it.
   */
  method BuildO3(m: ClustIntersectInfoMatrix, size: nat) returns (r: Result<array2<int>, string>)
    requires TableFilled(m) && m.eqClustList == EqPairs(m.idGroup, m.t1, m.t2)
    requires m.eqClustT1[..] == EqFlags(m.idGroup, m.t1, m.t2, true)
    requires m.eqClustT2[..] == EqFlags(m.idGroup, m.t1, m.t2, false)
    requires size == O3Size(m.idGroup, m.t1, m.t2)
    ensures r.Success? <==> !Overflows(|O3Rows(m.idGroup, m.t1, m.t2)|, |O3Cols(m.idGroup, m.t1, m.t2)|, size)
    ensures r.Success? ==> fresh(r.value) && r.value.Length0 == size && r.value.Length1 == size
    ensures r.Success? ==> Rows(r.value) == O3Matrix(m.idGroup, m.t1, m.t2)
  {
    var n := |m.t1.names|;
    var sizeIt := Max(m.intT1Num, m.intT2Num);
    var flags1, flags2 := m.eqClustT1[..], m.eqClustT2[..];
    var cs1, cs2, inter := m.cSize1[..], m.cSize2[..], Rows(m.intCladeSize);
    var sel1, sel2 := O3Sel(flags1, sizeIt), O3Sel(flags2, sizeIt);
    var cost := (x: Slot<nat>, y: Slot<nat>) requires CostArgs(cs1, cs2, inter, x, y) => O3Cost(n, cs1, cs2, inter, x, y);
    forall x, y | x in Kept(sel1) && y in Kept(sel2)
      ensures CostArgs(cs1, cs2, inter, x, y)
    {
      O3SelKept(flags1, sizeIt, x);
      O3SelKept(flags2, sizeIt, y);
    }
    assert CostIsO3(m, cost);
    r := FillSkipping(size, sel1, sel2, cost);
    if r.Success? {
      O3MatrixIs(m, Rows(r.value), cost);
    }
  }

  /** The first loop of getAlignment: the identical non-root pairs, or false once they overrun bound entries. */
  method ListEqPairs(list: seq<ClustPair>, cs1: seq<int>, leafSize: int, bound: nat) returns (aln: seq<IntNodePair>, ok: bool)
    requires forall p :: p in list ==> p.t1IntId < |cs1|
    ensures ok <==> |EqAlignment(list, cs1, leafSize)| <= bound
    ensures ok ==> aln == EqAlignment(list, cs1, leafSize)
  {
    aln := [];
    for k := 0 to |list|
      invariant aln == EqAlignment(list[..k], cs1, leafSize) && |aln| <= bound
    {
      assert list[..k + 1][..k] == list[..k];
      var cp := list[k];
      if cs1[cp.t1IntId] == leafSize {
        continue;
      }
      if |aln| == bound {
        EqAlignmentPrefix(list, cs1, leafSize, k + 1);
        return aln, false;
      }
      aln := aln + [IntNodePair(cp.t1IntId, cp.t2IntId, 0)];
    }
    assert list[..|list|] == list;
    return aln, true;
  }

  /** The pairs listed for a prefix of the recorded pairs are at most those for all of them. */
  lemma {:induction false} EqAlignmentPrefix(list: seq<ClustPair>, cs1: seq<int>, leafSize: int, k: nat)
    requires k <= |list| && forall p :: p in list ==> p.t1IntId < |cs1|
    ensures |EqAlignment(list[..k], cs1, leafSize)| <= |EqAlignment(list, cs1, leafSize)|
    decreases |list| - k
  {
    if k == |list| {
      assert list[..k] == list;
    } else {
      EqAlignmentPrefix(list, cs1, leafSize, k + 1);
      assert list[..k + 1][..k] == list[..k];
    }
  }

  /** The flags of the table are the flags stated on the trees. */
  lemma FlagsAre(m: ClustIntersectInfoMatrix)
    requires m.Valid() && Valid(m.t1) && Valid(m.t2) && FlagsMatch(m)
    requires m.eqClustList == EqPairs(m.idGroup, m.t1, m.t2)
    ensures m.eqClustT1[..] == EqFlags(m.idGroup, m.t1, m.t2, true)
    ensures m.eqClustT2[..] == EqFlags(m.idGroup, m.t1, m.t2, false)
  {
    var f1, f2 := EqFlags(m.idGroup, m.t1, m.t2, true), EqFlags(m.idGroup, m.t1, m.t2, false);
    assert forall a :: 0 <= a < |f1| ==> m.eqClustT1[..][a] == f1[a];
    assert forall b :: 0 <= b < |f2| ==> m.eqClustT2[..][b] == f2[b];
  }

  /** cost is the cell arithmetic of getDistance on the kept rows and columns of the table m. */
  ghost predicate CostIsO3(m: ClustIntersectInfoMatrix, cost: (Slot<nat>, Slot<nat>) --> int)
    reads m, m.cSize1, m.cSize2, m.intCladeSize
    requires Valid(m.t1) && Valid(m.t2)
  {
    var k1, k2 := O3Rows(m.idGroup, m.t1, m.t2), O3Cols(m.idGroup, m.t1, m.t2);
    var cs1, cs2, inter := m.cSize1[..], m.cSize2[..], Rows(m.intCladeSize);
    forall x, y :: x in k1 && y in k2 ==>
      && CostArgs(cs1, cs2, inter, x, y) && cost.requires(x, y)
      && cost(x, y) == O3Cost(|m.t1.names|, cs1, cs2, inter, x, y)
  }

  /** The matrix the loops fill from the table is O3Matrix. */
  lemma O3MatrixIs(m: ClustIntersectInfoMatrix, cells: seq<seq<int>>, cost: (Slot<nat>, Slot<nat>) --> int)
    requires TableFilled(m) && O3Size(m.idGroup, m.t1, m.t2) >= 0 && CostIsO3(m, cost)
    requires var size := O3Size(m.idGroup, m.t1, m.t2);
             && |cells| == size && (forall a :: 0 <= a < size ==> |cells[a]| == size)
             && (forall a, b :: 0 <= a < size && 0 <= b < size ==>
                   cells[a][b] == Cell(O3Rows(m.idGroup, m.t1, m.t2), O3Cols(m.idGroup, m.t1, m.t2), cost, a, b))
    ensures cells == O3Matrix(m.idGroup, m.t1, m.t2)
  {
    var size := O3Size(m.idGroup, m.t1, m.t2);
    var o := O3Matrix(m.idGroup, m.t1, m.t2);
    forall a | 0 <= a < size
      ensures cells[a] == o[a]
    {
      forall b | 0 <= b < size
        ensures cells[a][b] == o[a][b]
      {
        O3CellIs(m, cost, a, b);
      }
    }
  }

  lemma O3CellIs(m: ClustIntersectInfoMatrix, cost: (Slot<nat>, Slot<nat>) --> int, a: nat, b: nat)
    requires TableFilled(m) && CostIsO3(m, cost)
    ensures Cell(O3Rows(m.idGroup, m.t1, m.t2), O3Cols(m.idGroup, m.t1, m.t2), cost, a, b)
            == O3Entry(m.idGroup, m.t1, m.t2, a, b)
  {
    var g, t1, t2 := m.idGroup, m.t1, m.t2;
    var k1, k2 := O3Rows(g, t1, t2), O3Cols(g, t1, t2);
    if a < |k1| && b < |k2| {
      O3SelKept(EqFlags(g, t1, t2, true), SizeIt(t1, t2), k1[a]);
      O3SelKept(EqFlags(g, t1, t2, false), SizeIt(t1, t2), k2[b]);
      O3CostIsSplitCost(m, k1[a], k2[b]);
    }
  }
}
