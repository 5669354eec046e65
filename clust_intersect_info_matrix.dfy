/**
 * ClustIntersectInfoMatrix: the table of clade-intersection sizes between the
 * nodes of two pal trees, filled by TreeCmpUtils.calcClustIntersectMatrix.
 *
 * Internal × internal sizes are stored in a matrix; an internal × leaf size can
 * only be 0 or 1 and is stored as a bit: bit `id` of the bit set of internal
 * node i of one tree is set when the leaf with that id in the other tree lies
 * below i.  A java.util.BitSet is a set of ints here.  The 16-bit `short`
 * cells are unbounded ints.
 */
module ClustIntersectInfo {
  import opened PalTree

  datatype ClustPair = ClustPair(t1IntId: nat, t2IntId: nat)

  /** The contents of a table as a value: what getInterSize and the clade-size arrays answer. */
  datatype TableView = TableView(
    alias1: seq<int>, alias2: seq<int>,
    inter: seq<seq<int>>,
    t1ToLeafT2: seq<set<int>>, t2ToLeafT1: seq<set<int>>,
    cSize1: seq<int>, cSize2: seq<int>)

  /** The view has one entry per node of the two trees. */
  predicate ViewFits(v: TableView, t1: Tree, t2: Tree)
  {
    && |v.alias1| == |t1.names| && |v.alias2| == |t2.names|
    && |v.inter| == |t1.children| && (forall i :: 0 <= i < |v.inter| ==> |v.inter[i]| == |t2.children|)
    && |v.t1ToLeafT2| == |t1.children| && |v.t2ToLeafT1| == |t2.children|
    && |v.cSize1| == |t1.children| && |v.cSize2| == |t2.children|
  }

  /** getInterSize on a view: by the leaf/internal status of the two nodes, as the table looks it up. */
  function ViewInter(v: TableView, t1: Tree, t2: Tree, n1: NodeRef, n2: NodeRef): int
    requires ViewFits(v, t1, t2) && IsNode(t1, n1) && IsNode(t2, n2)
  {
    match (n1, n2)
    case (Int(a), Int(b)) => v.inter[a][b]
    case (Ext(a), Ext(b)) => if v.alias1[a] == v.alias2[b] then 1 else 0
    case (Ext(a), Int(b)) => if v.alias1[a] in v.t2ToLeafT1[b] then 1 else 0
    case (Int(a), Ext(b)) => if v.alias2[b] in v.t1ToLeafT2[a] then 1 else 0
  }

  /** The cluster size of a node of the first tree: 1 for a leaf, the stored clade size otherwise. */
  function ViewSize1(v: TableView, t1: Tree, t2: Tree, n: NodeRef): int
    requires ViewFits(v, t1, t2) && IsNode(t1, n)
  {
    if n.Ext? then 1 else v.cSize1[n.i]
  }

  function ViewSize2(v: TableView, t1: Tree, t2: Tree, n: NodeRef): int
    requires ViewFits(v, t1, t2) && IsNode(t2, n)
  {
    if n.Ext? then 1 else v.cSize2[n.i]
  }

  class ClustIntersectInfoMatrix {
    const t1: Tree
    const t2: Tree
    const idGroup: IdGroup

    var intT1Num: nat
    var extT1Num: nat
    var intT2Num: nat
    var extT2Num: nat

    var alias1: seq<int>
    var alias2: seq<int>

    var intCladeSize: array2<int>
    var cSize1: array<int>
    var cSize2: array<int>
    var intT1toLeafT2: array<set<int>>
    var intT2toLeafT1: array<set<int>>
    var eqClustList: seq<ClustPair>
    var eqClustT1: array<bool>
    var eqClustT2: array<bool>

    /** The fields have the shapes `Init` gives them. */
    ghost predicate Valid()
      reads this
    {
      && intT1Num == |t1.children| && extT1Num == |t1.names|
      && intT2Num == |t2.children| && extT2Num == |t2.names|
      && alias1 == Alias(idGroup, t1) && alias2 == Alias(idGroup, t2)
      && intCladeSize.Length0 == intT1Num && intCladeSize.Length1 == intT2Num
      && cSize1.Length == intT1Num && cSize2.Length == intT2Num
      && intT1toLeafT2.Length == intT1Num && intT2toLeafT1.Length == intT2Num
      && eqClustT1.Length == intT1Num && eqClustT2.Length == intT2Num
      && cSize1 != cSize2 && intT1toLeafT2 != intT2toLeafT1 && eqClustT1 != eqClustT2
    }

    /**
     * The Java constructor followed by `init`, which calcClustIntersectMatrix
     * always calls together: fresh tables of zeros, empty bit sets, no
     * equivalent clusters yet.
     */
    constructor (t1: Tree, t2: Tree, idGroup: IdGroup)
      ensures this.t1 == t1 && this.t2 == t2 && this.idGroup == idGroup
      ensures Valid()
      ensures fresh(intCladeSize) && fresh(cSize1) && fresh(cSize2)
      ensures fresh(intT1toLeafT2) && fresh(intT2toLeafT1) && fresh(eqClustT1) && fresh(eqClustT2)
      ensures forall a, b :: 0 <= a < intT1Num && 0 <= b < intT2Num ==> intCladeSize[a, b] == 0
      ensures forall a :: 0 <= a < intT1Num ==> intT1toLeafT2[a] == {} && cSize1[a] == 0 && !eqClustT1[a]
      ensures forall b :: 0 <= b < intT2Num ==> intT2toLeafT1[b] == {} && cSize2[b] == 0 && !eqClustT2[b]
      ensures eqClustList == []
    {
      var ics := NewMatrix(|t1.children|, |t2.children|);
      var b1 := NewBitSets(|t1.children|);
      var b2 := NewBitSets(|t2.children|);
      var c1 := NewShorts(|t1.children|);
      var c2 := NewShorts(|t2.children|);
      var q1 := NewFlags(|t1.children|);
      var q2 := NewFlags(|t2.children|);
      this.t1 := t1;
      this.t2 := t2;
      this.idGroup := idGroup;
      intT1Num, extT1Num := |t1.children|, |t1.names|;
      intT2Num, extT2Num := |t2.children|, |t2.names|;
      alias1 := Alias(idGroup, t1);
      alias2 := Alias(idGroup, t2);
      intCladeSize, intT1toLeafT2, intT2toLeafT1 := ics, b1, b2;
      cSize1, cSize2 := c1, c2;
      eqClustList := [];
      eqClustT1, eqClustT2 := q1, q2;
    }

    /** 1 when the two leaves carry the same id, else 0. */
    function GetT1ExtT2Ext(t1ExtId: nat, t2ExtId: nat): (r: int)
      reads this
      requires t1ExtId < |alias1| && t2ExtId < |alias2|
      ensures r == 0 || r == 1
      ensures r == 1 <==> alias1[t1ExtId] == alias2[t2ExtId]
    {
      if alias1[t1ExtId] == alias2[t2ExtId] then 1 else 0
    }

    /** 1 when the bit of the T2 leaf's id is set for the T1 internal node, else 0. */
    function GetT1IntT2Ext(t1IntId: nat, t2ExtId: nat): (r: int)
      reads this, intT1toLeafT2
      requires t1IntId < intT1toLeafT2.Length && t2ExtId < |alias2|
      ensures r == 0 || r == 1
      ensures r == 1 <==> alias2[t2ExtId] in intT1toLeafT2[t1IntId]
    {
      if alias2[t2ExtId] in intT1toLeafT2[t1IntId] then 1 else 0
    }

    /** 1 when the bit of the T1 leaf's id is set for the T2 internal node, else 0. */
    function GetT1ExtT2Int(t1ExtId: nat, t2IntId: nat): (r: int)
      reads this, intT2toLeafT1
      requires t1ExtId < |alias1| && t2IntId < intT2toLeafT1.Length
      ensures r == 0 || r == 1
      ensures r == 1 <==> alias1[t1ExtId] in intT2toLeafT1[t2IntId]
    {
      if alias1[t1ExtId] in intT2toLeafT1[t2IntId] then 1 else 0
    }

    /** The stored internal × internal size, the one SetT1IntT2Int last wrote for the pair. */
    function GetT1IntT2Int(t1IntId: nat, t2IntId: nat): (r: int)
      reads this, intCladeSize
      requires t1IntId < intCladeSize.Length0 && t2IntId < intCladeSize.Length1
      ensures r == intCladeSize[t1IntId, t2IntId]
    {
      intCladeSize[t1IntId, t2IntId]
    }

    /** Records a T1-internal × T2-leaf size: only a size of 1 sets a bit. */
    method SetT1IntT2Ext(t1IntId: nat, t2ExtId: nat, intSize: int)
      requires Valid() && t1IntId < intT1Num && t2ExtId < extT2Num
      requires alias2[t2ExtId] >= 0
      modifies intT1toLeafT2
      ensures intT1toLeafT2[t1IntId] ==
              if intSize == 1 then old(intT1toLeafT2[t1IntId]) + {alias2[t2ExtId]} else old(intT1toLeafT2[t1IntId])
      ensures forall a :: 0 <= a < intT1Num && a != t1IntId ==> intT1toLeafT2[a] == old(intT1toLeafT2[a])
    {
      if intSize == 1 {
        intT1toLeafT2[t1IntId] := intT1toLeafT2[t1IntId] + {alias2[t2ExtId]};
      }
    }

    /** Records a T1-leaf × T2-internal size: only a size of 1 sets a bit. */
    method SetT1ExtT2Int(t1ExtId: nat, t2IntId: nat, intSize: int)
      requires Valid() && t1ExtId < extT1Num && t2IntId < intT2Num
      requires alias1[t1ExtId] >= 0
      modifies intT2toLeafT1
      ensures intT2toLeafT1[t2IntId] ==
              if intSize == 1 then old(intT2toLeafT1[t2IntId]) + {alias1[t1ExtId]} else old(intT2toLeafT1[t2IntId])
      ensures forall b :: 0 <= b < intT2Num && b != t2IntId ==> intT2toLeafT1[b] == old(intT2toLeafT1[b])
    {
      if intSize == 1 {
        intT2toLeafT1[t2IntId] := intT2toLeafT1[t2IntId] + {alias1[t1ExtId]};
      }
    }

    /**
     * Stores an internal × internal size; when it equals both clade sizes the two
     * clusters are the same, and the pair is recorded and both nodes flagged.
     */
    method SetT1IntT2Int(t1IntId: nat, t2IntId: nat, intSize: int)
      requires Valid() && t1IntId < intT1Num && t2IntId < intT2Num
      modifies intCladeSize, this`eqClustList, eqClustT1, eqClustT2
      ensures Valid()
      ensures intCladeSize[t1IntId, t2IntId] == intSize && GetT1IntT2Int(t1IntId, t2IntId) == intSize
      ensures forall a, b :: 0 <= a < intT1Num && 0 <= b < intT2Num && (a != t1IntId || b != t2IntId) ==>
                intCladeSize[a, b] == old(intCladeSize[a, b])
      ensures var same := intSize == cSize1[t1IntId] && intSize == cSize2[t2IntId];
              && eqClustList == old(eqClustList) + (if same then [ClustPair(t1IntId, t2IntId)] else [])
              && (forall a :: 0 <= a < intT1Num ==> eqClustT1[a] == (old(eqClustT1[a]) || (same && a == t1IntId)))
              && (forall b :: 0 <= b < intT2Num ==> eqClustT2[b] == (old(eqClustT2[b]) || (same && b == t2IntId)))
    {
      intCladeSize[t1IntId, t2IntId] := intSize;
      if intSize == cSize1[t1IntId] && intSize == cSize2[t2IntId] {
        eqClustList := eqClustList + [ClustPair(t1IntId, t2IntId)];
        eqClustT1[t1IntId] := true;
        eqClustT2[t2IntId] := true;
      }
    }

    /** Looks up the intersection size of any two nodes, by their leaf/internal status. */
    function GetInterSize(n1: NodeRef, n2: NodeRef): (r: int)
      reads this, intCladeSize, intT1toLeafT2, intT2toLeafT1
      requires Valid() && IsNode(t1, n1) && IsNode(t2, n2)
      ensures n1.Int? && n2.Int? ==> r == intCladeSize[n1.i, n2.i]
      ensures n1.Ext? && n2.Ext? ==> (r == 1 <==> alias1[n1.i] == alias2[n2.i])
      ensures n1.Ext? && n2.Int? ==> (r == 1 <==> alias1[n1.i] in intT2toLeafT1[n2.i])
      ensures n1.Int? && n2.Ext? ==> (r == 1 <==> alias2[n2.i] in intT1toLeafT2[n1.i])
      ensures !(n1.Int? && n2.Int?) ==> r == 0 || r == 1
    {
      match (n1, n2)
      case (Int(a), Int(b)) => GetT1IntT2Int(a, b)
      case (Ext(a), Ext(b)) => GetT1ExtT2Ext(a, b)
      case (Ext(a), Int(b)) => GetT1ExtT2Int(a, b)
      case (Int(a), Ext(b)) => GetT1IntT2Ext(a, b)
    }

    /** The cluster size of a T1 node: 1 for a leaf, the stored clade size otherwise. */
    function GetSizeT1(n: NodeRef): (r: int)
      reads this, cSize1
      requires Valid() && IsNode(t1, n)
      ensures n.Ext? ==> r == 1
      ensures n.Int? ==> r == cSize1[n.i]
    {
      if n.Ext? then 1 else cSize1[n.i]
    }

    function GetSizeT2(n: NodeRef): (r: int)
      reads this, cSize2
      requires Valid() && IsNode(t2, n)
      ensures n.Ext? ==> r == 1
      ensures n.Int? ==> r == cSize2[n.i]
    {
      if n.Ext? then 1 else cSize2[n.i]
    }

    /** The table as a value: every lookup on the view answers as the table does. */
    function View(): (v: TableView)
      reads this, intCladeSize, intT1toLeafT2, intT2toLeafT1, cSize1, cSize2
      requires Valid()
      ensures ViewFits(v, t1, t2)
      ensures forall n1, n2 :: IsNode(t1, n1) && IsNode(t2, n2) ==> ViewInter(v, t1, t2, n1, n2) == GetInterSize(n1, n2)
      ensures forall n :: IsNode(t1, n) ==> ViewSize1(v, t1, t2, n) == GetSizeT1(n)
      ensures forall n :: IsNode(t2, n) ==> ViewSize2(v, t1, t2, n) == GetSizeT2(n)
    {
      var a, rows, cols := intCladeSize, intT1Num, intT2Num;
      var inter := seq(rows, i reads a requires 0 <= i < rows =>
        seq(cols, j reads a requires 0 <= j < cols => a[i, j]));
      TableView(alias1, alias2, inter, intT1toLeafT2[..], intT2toLeafT1[..], cSize1[..], cSize2[..])
    }
  }

  /** Java's `new short[m][n]`: a fresh matrix of zeros. */
  method NewMatrix(m: nat, n: nat) returns (a: array2<int>)
    ensures fresh(a) && a.Length0 == m && a.Length1 == n
    ensures forall i, j :: 0 <= i < m && 0 <= j < n ==> a[i, j] == 0
  {
    a := new int[m, n]((_, _) => 0);
  }

  /** Java's `new short[n]`: a fresh array of zeros. */
  method NewShorts(n: nat) returns (a: array<int>)
    ensures fresh(a) && a.Length == n
    ensures forall i :: 0 <= i < n ==> a[i] == 0
  {
    a := new int[n](_ => 0);
  }

  /** n fresh empty bit sets. */
  method NewBitSets(n: nat) returns (a: array<set<int>>)
    ensures fresh(a) && a.Length == n
    ensures forall i :: 0 <= i < n ==> a[i] == {}
  {
    a := new set<int>[n](_ => {});
  }

  /** Java's `new boolean[n]`: a fresh array of false. */
  method NewFlags(n: nat) returns (a: array<bool>)
    ensures fresh(a) && a.Length == n
    ensures forall i :: 0 <= i < n ==> !a[i]
  {
    a := new bool[n](_ => false);
  }
}
