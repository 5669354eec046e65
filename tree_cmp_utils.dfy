/**
 * TreeCmpUtils: the post-order walk, clade sizes and the clade-intersection
 * table of two trees, and the small helpers the metrics share.
 */
module TreeCmpUtils {
  import opened PalTree
  import opened ClustIntersectInfo

  /** getNodesInPostOrder: follows the post-order successor from the first leaf until the root. */
  method GetNodesInPostOrder(t: Tree) returns (postOrderT: array<NodeRef>)
    requires Valid(t)
    ensures fresh(postOrderT)
    ensures postOrderT[..] == t.post
    ensures postOrderT.Length == |t.post| && forall p :: 0 <= p < |t.post| ==> postOrderT[p] == t.post[p]
  {
    var allTNum := |t.children| + |t.names|;
    postOrderT := new NodeRef[allTNum];
    var loop := true;
    var i := 0;
    while loop
      invariant 0 <= i <= allTNum
      invariant loop ==> i < allTNum
      invariant !loop ==> i == allTNum
      invariant postOrderT[..i] == t.post[..i]
      decreases allTNum - i
    {
      var curNode := t.post[i];
      if curNode == Root(t) {
        loop := false;
      }
      postOrderT[i] := curNode;
      i := i + 1;
    }
    assert postOrderT[..] == postOrderT[..allTNum];
    assert t.post == t.post[..allTNum];
  }

  /** The nodes getAllNodes lists: the external nodes in number order, then the internal ones. */
  function AllNodes(t: Tree): (r: seq<NodeRef>)
    ensures |r| == |t.names| + |t.children|
    ensures forall k :: 0 <= k < |r| ==> IsNode(t, r[k])
    ensures forall k :: 0 <= k < |t.names| ==> r[k] == Ext(k)
    ensures forall k :: |t.names| <= k < |r| ==> r[k] == Int(k - |t.names|)
  {
    seq(|t.names|, (l: nat) => Ext(l)) + seq(|t.children|, (i: nat) => Int(i))
  }

  /** Every node occurs in AllNodes exactly once; the root, when there is one, last. */
  lemma AllNodesEach(t: Tree, x: NodeRef)
    requires IsNode(t, x)
    ensures x in AllNodes(t)
    ensures forall a, b :: 0 <= a < b < |AllNodes(t)| ==> AllNodes(t)[a] != AllNodes(t)[b]
    ensures |t.children| > 0 ==> AllNodes(t)[|AllNodes(t)| - 1] == Root(t)
  {
    var r := AllNodes(t);
    if x.Ext? {
      assert r[x.i] == x;
    } else {
      assert r[|t.names| + x.i] == x;
    }
  }

  /** getAllNodes: fills an array with the external nodes, then the internal nodes. */
  method GetAllNodes(t: Tree) returns (nodes: array<NodeRef>)
    ensures fresh(nodes)
    ensures nodes[..] == AllNodes(t)
  {
    var intTNum, extTNum := |t.children|, |t.names|;
    var allTNum := intTNum + extTNum;
    var i := 0;
    nodes := new NodeRef[allTNum](_ => Ext(0));
    for j := 0 to extTNum
      invariant i == j
      invariant forall k :: 0 <= k < i ==> nodes[k] == Ext(k)
    {
      nodes[i] := Ext(j);
      i := i + 1;
    }
    for j := 0 to intTNum
      invariant i == extTNum + j
      invariant forall k :: 0 <= k < extTNum ==> nodes[k] == Ext(k)
      invariant forall k :: extTNum <= k < i ==> nodes[k] == Int(k - extTNum)
    {
      nodes[i] := Int(j);
      i := i + 1;
    }
    assert nodes[..] == AllNodes(t);
  }

  /** The number of leaves below a node: 1 for a leaf. */
  lemma LeafCladeSize(t: Tree, l: nat)
    requires Shaped(t) && l < |t.names|
    ensures |Leaves(t, Ext(l))| == 1
  {
  }

  /** calcCladeSizes: the number of leaves below every internal node, children first. */
  method CalcCladeSizes(t: Tree, postOrderNodes: array<NodeRef>, cladeSizeTab: array<int>)
    requires Valid(t) && postOrderNodes[..] == t.post && cladeSizeTab.Length == |t.children|
    modifies cladeSizeTab
    ensures forall a :: 0 <= a < |t.children| ==> cladeSizeTab[a] == |Leaves(t, Int(a))|
  {
    var allTNum := |t.children| + |t.names|;
    for i := 0 to allTNum
      invariant forall a :: 0 <= a < |t.children| && Int(a) in t.post[..i] ==> cladeSizeTab[a] == |Leaves(t, Int(a))|
    {
      var curNode := postOrderNodes[i];
      assert curNode == t.post[i];
      Snoc(t.post, i);
      if curNode.Ext? {
        continue;
      }
      var intId := curNode.i;
      var cSize := CladeSizeOf(t, i, intId, cladeSizeTab);
      cladeSizeTab[intId] := cSize;
    }
    Whole(t.post);
  }

  /** The inner loop of calcCladeSizes: the sizes of the children of the node at post-order position i, added up. */
  method CladeSizeOf(t: Tree, i: nat, intId: nat, cladeSizeTab: array<int>) returns (cSize: int)
    requires Valid(t) && i < |t.post| && t.post[i] == Int(intId) && cladeSizeTab.Length == |t.children|
    requires forall a :: 0 <= a < |t.children| && Int(a) in t.post[..i] ==> cladeSizeTab[a] == |Leaves(t, Int(a))|
    ensures cSize == |Leaves(t, Int(intId))|
  {
    var ch := t.children[intId];
    assert ChildrenBefore(t, i);
    cSize := 0;
    for j := 0 to |ch|
      invariant cSize == SizeSum(t, ch[..j], intId)
    {
      var child := ch[j];
      assert child in t.post[..i];
      assert ChildOk(t, intId, child);
      if child.Ext? {
        LeafCladeSize(t, child.i);
        cSize := cSize + 1;
      } else {
        cSize := cSize + cladeSizeTab[child.i];
      }
      Snoc(ch, j);
      assert SizeSum(t, ch[..j + 1], intId) == SizeSum(t, ch[..j], intId) + |Leaves(t, child)|;
    }
    SizeSumIsSize(t, intId, |ch|);
    Whole(ch);
  }

  /** The root holds every leaf, so its clade size is the leaf count. */
  lemma RootCladeSize(t: Tree)
    requires Valid(t)
    ensures |Leaves(t, Root(t))| == |t.names|
  {
    RangeSetCard(|t.names|);
    assert Leaves(t, Root(t)) == RangeSet(|t.names|);
  }

  function RangeSet(n: nat): set<nat>
  {
    if n == 0 then {} else RangeSet(n - 1) + {n - 1}
  }

  lemma {:induction false} RangeSetCard(n: nat)
    ensures |RangeSet(n)| == n
    ensures forall l: nat :: l in RangeSet(n) <==> l < n
  {
    if n > 0 {
      RangeSetCard(n - 1);
      assert n - 1 !in RangeSet(n - 1);
    }
  }

  /** Two nodes, one per tree, whose clusters are the same: the intersection is as large as both clades. */
  predicate SameClade(g: IdGroup, t1: Tree, t2: Tree, a: nat, b: nat)
    requires Shaped(t1) && Shaped(t2) && a < |t1.children| && b < |t2.children|
  {
    var s := |Cluster(g, t1, Int(a)) * Cluster(g, t2, Int(b))|;
    s == |Leaves(t1, Int(a))| && s == |Leaves(t2, Int(b))|
  }

  lemma SubsetSameCard(x: set<int>, y: set<int>)
    requires x <= y && |x| == |y|
    ensures x == y
  {
    assert |y - x| == |y| - |x|;
  }

  /** The equal-cluster test of setT1Int_T2Int is exactly equality of the two clusters. */
  lemma SameCladeIsEqualCluster(g: IdGroup, t1: Tree, t2: Tree, a: nat, b: nat)
    requires Valid(t1) && Valid(t2) && Covers(g, t1) && Covers(g, t2)
    requires a < |t1.children| && b < |t2.children|
    ensures SameClade(g, t1, t2, a, b) <==> Cluster(g, t1, Int(a)) == Cluster(g, t2, Int(b))
  {
    var c1, c2 := Cluster(g, t1, Int(a)), Cluster(g, t2, Int(b));
    ClusterSize(g, t1, Int(a));
    ClusterSize(g, t2, Int(b));
    if c1 == c2 {
      assert c1 * c2 == c1;
      assert SameClade(g, t1, t2, a, b);
    }
    if SameClade(g, t1, t2, a, b) {
      assert |c1 * c2| == |c1| && |c1 * c2| == |c2|;
      SubsetSameCard(c1 * c2, c1);
      SubsetSameCard(c1 * c2, c2);
    }
  }

  /** The pairs of equal clusters recorded while the node u meets the nodes vs, in order. */
  function EqRow(g: IdGroup, t1: Tree, t2: Tree, u: NodeRef, vs: seq<NodeRef>): seq<ClustPair>
    requires Shaped(t1) && Shaped(t2) && IsNode(t1, u)
    requires forall k :: 0 <= k < |vs| ==> IsNode(t2, vs[k])
  {
    if vs == [] then []
    else
      var v := vs[|vs| - 1];
      assert IsNode(t2, v);
      EqRow(g, t1, t2, u, vs[..|vs| - 1]) +
        (if u.Int? && v.Int? && SameClade(g, t1, t2, u.i, v.i) then [ClustPair(u.i, v.i)] else [])
  }

  /** The pairs recorded while the nodes us, in order, each meet all the nodes vs. */
  function EqPrefix(g: IdGroup, t1: Tree, t2: Tree, us: seq<NodeRef>, vs: seq<NodeRef>): seq<ClustPair>
    requires Shaped(t1) && Shaped(t2)
    requires forall k :: 0 <= k < |us| ==> IsNode(t1, us[k])
    requires forall k :: 0 <= k < |vs| ==> IsNode(t2, vs[k])
  {
    if us == [] then []
    else EqPrefix(g, t1, t2, us[..|us| - 1], vs) + EqRow(g, t1, t2, us[|us| - 1], vs)
  }

  lemma {:induction false} EqRowMember(g: IdGroup, t1: Tree, t2: Tree, u: NodeRef, vs: seq<NodeRef>, p: ClustPair)
    requires Shaped(t1) && Shaped(t2) && IsNode(t1, u)
    requires forall k :: 0 <= k < |vs| ==> IsNode(t2, vs[k])
    ensures p in EqRow(g, t1, t2, u, vs) <==>
              && u == Int(p.t1IntId) && Int(p.t2IntId) in vs && p.t2IntId < |t2.children|
              && SameClade(g, t1, t2, p.t1IntId, p.t2IntId)
  {
    if vs != [] {
      EqRowMember(g, t1, t2, u, vs[..|vs| - 1], p);
      assert vs == vs[..|vs| - 1] + [vs[|vs| - 1]];
    }
  }

  lemma {:induction false} EqPrefixMember(g: IdGroup, t1: Tree, t2: Tree, us: seq<NodeRef>, vs: seq<NodeRef>, p: ClustPair)
    requires Shaped(t1) && Shaped(t2)
    requires forall k :: 0 <= k < |us| ==> IsNode(t1, us[k])
    requires forall k :: 0 <= k < |vs| ==> IsNode(t2, vs[k])
    ensures p in EqPrefix(g, t1, t2, us, vs) <==>
              && Int(p.t1IntId) in us && Int(p.t2IntId) in vs
              && p.t1IntId < |t1.children| && p.t2IntId < |t2.children|
              && SameClade(g, t1, t2, p.t1IntId, p.t2IntId)
  {
    if us != [] {
      EqPrefixMember(g, t1, t2, us[..|us| - 1], vs, p);
      EqRowMember(g, t1, t2, us[|us| - 1], vs, p);
      assert us == us[..|us| - 1] + [us[|us| - 1]];
    }
  }

  /** eqClustList after calcClustIntersectMatrix: every pair, in traversal order, whose clusters agree. */
  function EqPairs(g: IdGroup, t1: Tree, t2: Tree): seq<ClustPair>
    requires Valid(t1) && Valid(t2)
  {
    EqPrefix(g, t1, t2, t1.post, t2.post)
  }

  /** A pair is recorded exactly when it names two internal nodes with the same cluster. */
  lemma EqPairsMember(g: IdGroup, t1: Tree, t2: Tree, p: ClustPair)
    requires Valid(t1) && Valid(t2) && Covers(g, t1) && Covers(g, t2)
    ensures p in EqPairs(g, t1, t2) <==>
              && p.t1IntId < |t1.children| && p.t2IntId < |t2.children|
              && Cluster(g, t1, Int(p.t1IntId)) == Cluster(g, t2, Int(p.t2IntId))
  {
    EqPrefixMember(g, t1, t2, t1.post, t2.post, p);
    if p.t1IntId < |t1.children| && p.t2IntId < |t2.children| {
      SameCladeIsEqualCluster(g, t1, t2, p.t1IntId, p.t2IntId);
    }
  }

  /** The traversal has handled the pair (u, v): u's row is complete, or u is the current row and v is already visited. */
  ghost predicate Done(p1: seq<NodeRef>, p2: seq<NodeRef>, i: nat, j: nat, u: NodeRef, v: NodeRef)
  {
    || (i <= |p1| && u in p1[..i])
    || (i < |p1| && j <= |p2| && u == p1[i] && v in p2[..j])
  }

  /** One more column of the current row: exactly the pair (post1[i], post2[j]) becomes handled. */
  lemma DoneNext(p1: seq<NodeRef>, p2: seq<NodeRef>, i: nat, j: nat)
    requires i < |p1| && j < |p2|
    ensures forall u, v :: Done(p1, p2, i, j + 1, u, v) <==> Done(p1, p2, i, j, u, v) || (u == p1[i] && v == p2[j])
  {
    Snoc(p2, j);
  }

  /** A finished row is the start of the next one, for nodes of the second traversal. */
  lemma DoneRow(p1: seq<NodeRef>, p2: seq<NodeRef>, i: nat)
    requires i < |p1|
    ensures forall u, v :: v in p2 ==> (Done(p1, p2, i + 1, 0, u, v) <==> Done(p1, p2, i, |p2|, u, v))
  {
    Snoc(p1, i);
    Whole(p2);
  }

  /** One more column of a row of recorded pairs. */
  lemma EqRowNext(g: IdGroup, t1: Tree, t2: Tree, u: NodeRef, vs: seq<NodeRef>, j: nat)
    requires Shaped(t1) && Shaped(t2) && IsNode(t1, u) && j < |vs|
    requires forall k :: 0 <= k < |vs| ==> IsNode(t2, vs[k])
    ensures IsNode(t2, vs[j])
    ensures EqRow(g, t1, t2, u, vs[..j + 1]) == EqRow(g, t1, t2, u, vs[..j]) +
              (if u.Int? && vs[j].Int? && SameClade(g, t1, t2, u.i, vs[j].i) then [ClustPair(u.i, vs[j].i)] else [])
  {
    Snoc(vs, j);
    assert IsNode(t2, vs[j]);
  }

  /** One more row of recorded pairs. */
  lemma EqPrefixNext(g: IdGroup, t1: Tree, t2: Tree, us: seq<NodeRef>, vs: seq<NodeRef>, i: nat)
    requires Shaped(t1) && Shaped(t2) && i < |us|
    requires forall k :: 0 <= k < |us| ==> IsNode(t1, us[k])
    requires forall k :: 0 <= k < |vs| ==> IsNode(t2, vs[k])
    ensures EqPrefix(g, t1, t2, us[..i + 1], vs) == EqPrefix(g, t1, t2, us[..i], vs) + EqRow(g, t1, t2, us[i], vs[..|vs|])
  {
    Snoc(us, i);
    Whole(vs);
  }

  /** Internal × internal cells of handled pairs hold the sizes of the cluster intersections. */
  ghost predicate FilledIntInt(m: ClustIntersectInfoMatrix, i: nat, j: nat)
    reads m, m.intCladeSize
    requires m.Valid() && Shaped(m.t1) && Shaped(m.t2)
  {
    forall a, b {:trigger m.intCladeSize[a, b]} ::
      0 <= a < |m.t1.children| && 0 <= b < |m.t2.children| && Done(m.t1.post, m.t2.post, i, j, Int(a), Int(b)) ==>
      m.intCladeSize[a, b] == |Cluster(m.idGroup, m.t1, Int(a)) * Cluster(m.idGroup, m.t2, Int(b))|
  }

  /** The bit of a T2 leaf is set for a T1 internal node exactly when the pair is handled and the leaf's id is in the node's cluster. */
  ghost predicate FilledIntLeaf(m: ClustIntersectInfoMatrix, i: nat, j: nat)
    reads m, m.intT1toLeafT2
    requires m.Valid() && Shaped(m.t1) && Shaped(m.t2)
  {
    forall a, l {:trigger m.intT1toLeafT2[a], m.alias2[l]} :: 0 <= a < |m.t1.children| && 0 <= l < |m.t2.names| ==>
      (m.alias2[l] in m.intT1toLeafT2[a] <==>
         Done(m.t1.post, m.t2.post, i, j, Int(a), Ext(l)) && m.alias2[l] in Cluster(m.idGroup, m.t1, Int(a)))
  }

  /** The same for a T1 leaf against a T2 internal node. */
  ghost predicate FilledLeafInt(m: ClustIntersectInfoMatrix, i: nat, j: nat)
    reads m, m.intT2toLeafT1
    requires m.Valid() && Shaped(m.t1) && Shaped(m.t2)
  {
    forall b, l {:trigger m.intT2toLeafT1[b], m.alias1[l]} :: 0 <= b < |m.t2.children| && 0 <= l < |m.t1.names| ==>
      (m.alias1[l] in m.intT2toLeafT1[b] <==>
         Done(m.t1.post, m.t2.post, i, j, Ext(l), Int(b)) && m.alias1[l] in Cluster(m.idGroup, m.t2, Int(b)))
  }

  /** The flag of a node of the first (or the second) tree is set exactly when a recorded pair names it. */
  ghost predicate FlagsOf(flags: seq<bool>, list: seq<ClustPair>, first: bool)
  {
    forall a :: 0 <= a < |flags| ==>
      (flags[a] <==> exists p :: p in list && (if first then p.t1IntId else p.t2IntId) == a)
  }

  /** The flags of both trees say which nodes occur in the recorded pairs. */
  ghost predicate FlagsMatch(m: ClustIntersectInfoMatrix)
    reads m, m.eqClustT1, m.eqClustT2
  {
    FlagsOf(m.eqClustT1[..], m.eqClustList, true) && FlagsOf(m.eqClustT2[..], m.eqClustList, false)
  }

  /** Recording a pair and raising its flag, or doing neither, keeps the flags right. */
  lemma FlagsRecord(flags: seq<bool>, list: seq<ClustPair>, newFlags: seq<bool>, newList: seq<ClustPair>,
                    q: ClustPair, same: bool, first: bool)
    requires FlagsOf(flags, list, first) && |newFlags| == |flags|
    requires newList == list + (if same then [q] else [])
    requires forall a :: 0 <= a < |flags| ==>
               newFlags[a] == (flags[a] || (same && a == (if first then q.t1IntId else q.t2IntId)))
    ensures FlagsOf(newFlags, newList, first)
  {
    forall a | 0 <= a < |flags|
      ensures newFlags[a] <==> exists p :: p in newList && (if first then p.t1IntId else p.t2IntId) == a
    {
      if newFlags[a] && !flags[a] {
        assert q in newList;
      }
      if flags[a] {
        var p :| p in list && (if first then p.t1IntId else p.t2IntId) == a;
        assert p in newList;
      }
    }
  }

  /** The clade-size arrays hold the leaf counts. */
  ghost predicate SizesKnown(m: ClustIntersectInfoMatrix)
    reads m, m.cSize1, m.cSize2
    requires m.Valid() && Shaped(m.t1) && Shaped(m.t2)
  {
    && (forall a :: 0 <= a < |m.t1.children| ==> m.cSize1[a] == |Leaves(m.t1, Int(a))|)
    && (forall b :: 0 <= b < |m.t2.children| ==> m.cSize2[b] == |Leaves(m.t2, Int(b))|)
  }

  /** The recorded pairs are those of the rows before i and of row i up to column j. */
  ghost predicate EqSoFar(m: ClustIntersectInfoMatrix, i: nat, j: nat)
    reads m
    requires m.Valid() && Valid(m.t1) && Valid(m.t2) && i < |m.t1.post| && j <= |m.t2.post|
  {
    m.eqClustList == EqPrefix(m.idGroup, m.t1, m.t2, m.t1.post[..i], m.t2.post) +
                     EqRow(m.idGroup, m.t1, m.t2, m.t1.post[i], m.t2.post[..j])
  }

  /** Both trees are valid and covered by the id group, and (i, j) is a position of the traversal. */
  ghost predicate Ready(m: ClustIntersectInfoMatrix, i: nat, j: nat)
    reads m
  {
    && m.Valid() && Valid(m.t1) && Valid(m.t2) && Covers(m.idGroup, m.t1) && Covers(m.idGroup, m.t2)
    && i < |m.t1.post| && j <= |m.t2.post|
  }

  ghost predicate Filled(m: ClustIntersectInfoMatrix, i: nat, j: nat)
    reads m, m.intCladeSize, m.intT1toLeafT2, m.intT2toLeafT1
    requires m.Valid() && Shaped(m.t1) && Shaped(m.t2)
  {
    FilledIntInt(m, i, j) && FilledIntLeaf(m, i, j) && FilledLeafInt(m, i, j)
  }

  /** The state of calcClustIntersectMatrix before it visits the pair (post1[i], post2[j]). */
  ghost predicate Stage(m: ClustIntersectInfoMatrix, i: nat, j: nat)
    reads m, m.intCladeSize, m.intT1toLeafT2, m.intT2toLeafT1, m.eqClustT1, m.eqClustT2, m.cSize1, m.cSize2
  {
    Ready(m, i, j) && Filled(m, i, j) && FlagsMatch(m) && SizesKnown(m) && EqSoFar(m, i, j)
  }

  /** The parts of the state that the pair (post1[i], post2[j]) leaves alone carry over to the next column. */
  lemma StepOthers(m: ClustIntersectInfoMatrix, i: nat, j: nat)
    requires Ready(m, i, j) && j < |m.t2.post|
    ensures var u, v := m.t1.post[i], m.t2.post[j];
            && (u.Ext? || v.Ext? ==> (FilledIntInt(m, i, j) ==> FilledIntInt(m, i, j + 1)))
            && (u.Ext? || v.Int? ==> (FilledIntLeaf(m, i, j) ==> FilledIntLeaf(m, i, j + 1)))
            && (u.Int? || v.Ext? ==> (FilledLeafInt(m, i, j) ==> FilledLeafInt(m, i, j + 1)))
            && (u.Ext? || v.Ext? ==> (EqSoFar(m, i, j) ==> EqSoFar(m, i, j + 1)))
  {
    DoneNext(m.t1.post, m.t2.post, i, j);
    EqRowNext(m.idGroup, m.t1, m.t2, m.t1.post[i], m.t2.post, j);
  }

  /** The state of calcClustIntersectMatrix before row i: the rows before i are finished. */
  ghost predicate Outer(m: ClustIntersectInfoMatrix, i: nat)
    reads m, m.intCladeSize, m.intT1toLeafT2, m.intT2toLeafT1, m.eqClustT1, m.eqClustT2, m.cSize1, m.cSize2
  {
    && m.Valid() && Valid(m.t1) && Valid(m.t2) && Covers(m.idGroup, m.t1) && Covers(m.idGroup, m.t2)
    && i <= |m.t1.post|
    && Filled(m, i, 0) && FlagsMatch(m) && SizesKnown(m)
    && m.eqClustList == EqPrefix(m.idGroup, m.t1, m.t2, m.t1.post[..i], m.t2.post)
  }

  /** A row starts with no column visited. */
  lemma RowStart(m: ClustIntersectInfoMatrix, i: nat)
    requires Outer(m, i) && i < |m.t1.post|
    ensures Stage(m, i, 0)
  {
    assert m.t2.post[..0] == [];
  }

  /** A finished row is a finished prefix of rows. */
  lemma RowEnd(m: ClustIntersectInfoMatrix, i: nat)
    requires Stage(m, i, |m.t2.post|)
    ensures Outer(m, i + 1)
  {
    DoneRow(m.t1.post, m.t2.post, i);
    EqPrefixNext(m.idGroup, m.t1, m.t2, m.t1.post, m.t2.post, i);
  }

  lemma SingletonInter(s: set<int>, x: int)
    ensures |s * {x}| == (if x in s then 1 else 0)
    ensures |{x} * s| == (if x in s then 1 else 0)
  {
    if x in s {
      assert s * {x} == {x};
      assert {x} * s == {x};
    } else {
      assert s * {x} == {};
      assert {x} * s == {};
    }
  }

  /** The facts about the table that the sum over a node's children relies on. */
  ghost predicate SumReady(m: ClustIntersectInfoMatrix, i: nat, j: nat)
    reads m
  {
    && m.Valid() && Valid(m.t1) && Valid(m.t2) && Covers(m.idGroup, m.t1) && Covers(m.idGroup, m.t2)
    && i < |m.t1.post| && j < |m.t2.post|
  }

  /**
   * The sum, over the children x of the T2 internal node v, of the entries
   * (u, x) for the T1 leaf u: the size of u's cluster met with v's.
   */
  method SumLeafInt(m: ClustIntersectInfoMatrix, i: nat, j: nat, uNode: NodeRef, vNode: NodeRef) returns (sum: int)
    requires SumReady(m, i, j) && FilledLeafInt(m, i, j)
    requires uNode == m.t1.post[i] && vNode == m.t2.post[j] && uNode.Ext? && vNode.Int?
    ensures sum == |Cluster(m.idGroup, m.t1, uNode) * Cluster(m.idGroup, m.t2, vNode)|
  {
    var g, tree1, tree2 := m.idGroup, m.t1, m.t2;
    var uNodeNum := uNode.i;
    var vNodeNum := vNode.i;
    var ch := tree2.children[vNodeNum];
    ghost var s := Cluster(g, tree1, uNode);
    assert ChildrenBefore(tree2, j);
    sum := 0;
    for k := 0 to |ch|
      invariant sum == InterSum(g, tree2, ch[..k], vNodeNum, s)
    {
      var xNode := ch[k];
      assert ChildOk(tree2, vNodeNum, xNode);
      var cs;
      if xNode.Ext? {
        cs := m.GetT1ExtT2Ext(uNodeNum, xNode.i);
        SingletonInter({m.alias2[xNode.i]}, m.alias1[uNodeNum]);
      } else {
        assert xNode in tree2.post[..j];
        cs := m.GetT1ExtT2Int(uNodeNum, xNode.i);
        SingletonInter(Cluster(g, tree2, xNode), m.alias1[uNodeNum]);
      }
      sum := sum + cs;
      assert ch[..k + 1][..k] == ch[..k] && ch[..k + 1][k] == xNode;
    }
    InterSumIsIntersection(g, tree2, vNodeNum, |ch|, s);
    assert ch[..|ch|] == ch;
    assert s * Cluster(g, tree2, vNode) == Cluster(g, tree2, vNode) * s;
  }

  /** The same sum over the children of the T1 internal node u, for the T2 leaf v. */
  method SumIntLeaf(m: ClustIntersectInfoMatrix, i: nat, j: nat, uNode: NodeRef, vNode: NodeRef) returns (sum: int)
    requires SumReady(m, i, j) && FilledIntLeaf(m, i, j)
    requires uNode == m.t1.post[i] && vNode == m.t2.post[j] && uNode.Int? && vNode.Ext?
    ensures sum == |Cluster(m.idGroup, m.t1, uNode) * Cluster(m.idGroup, m.t2, vNode)|
  {
    var g, tree1, tree2 := m.idGroup, m.t1, m.t2;
    var uNodeNum := uNode.i;
    var vNodeNum := vNode.i;
    var ch := tree1.children[uNodeNum];
    ghost var s := Cluster(g, tree2, vNode);
    assert ChildrenBefore(tree1, i);
    sum := 0;
    for k := 0 to |ch|
      invariant sum == InterSum(g, tree1, ch[..k], uNodeNum, s)
    {
      var xNode := ch[k];
      assert ChildOk(tree1, uNodeNum, xNode);
      var cs;
      if xNode.Ext? {
        cs := m.GetT1ExtT2Ext(xNode.i, vNodeNum);
        SingletonInter({m.alias1[xNode.i]}, m.alias2[vNodeNum]);
      } else {
        assert xNode in tree1.post[..i];
        cs := m.GetT1IntT2Ext(xNode.i, vNodeNum);
        SingletonInter(Cluster(g, tree1, xNode), m.alias2[vNodeNum]);
      }
      sum := sum + cs;
      assert ch[..k + 1][..k] == ch[..k] && ch[..k + 1][k] == xNode;
    }
    InterSumIsIntersection(g, tree1, uNodeNum, |ch|, s);
    assert ch[..|ch|] == ch;
  }

  /** The sum over the children of the T1 internal node u of their entries against the T2 internal node v. */
  method SumIntInt(m: ClustIntersectInfoMatrix, i: nat, j: nat, uNode: NodeRef, vNode: NodeRef) returns (sum: int)
    requires SumReady(m, i, j) && FilledIntInt(m, i, j) && FilledLeafInt(m, i, j)
    requires uNode == m.t1.post[i] && vNode == m.t2.post[j] && uNode.Int? && vNode.Int?
    ensures sum == |Cluster(m.idGroup, m.t1, uNode) * Cluster(m.idGroup, m.t2, vNode)|
  {
    var g, tree1, tree2 := m.idGroup, m.t1, m.t2;
    var uNodeNum := uNode.i;
    var vNodeNum := vNode.i;
    var ch := tree1.children[uNodeNum];
    ghost var s := Cluster(g, tree2, vNode);
    assert ChildrenBefore(tree1, i);
    sum := 0;
    for k := 0 to |ch|
      invariant sum == InterSum(g, tree1, ch[..k], uNodeNum, s)
    {
      var xNode := ch[k];
      assert ChildOk(tree1, uNodeNum, xNode);
      assert xNode in tree1.post[..i];
      var cs;
      if xNode.Ext? {
        cs := m.GetT1ExtT2Int(xNode.i, vNodeNum);
        SingletonInter(s, m.alias1[xNode.i]);
      } else {
        cs := m.GetT1IntT2Int(xNode.i, vNodeNum);
      }
      sum := sum + cs;
      assert ch[..k + 1][..k] == ch[..k] && ch[..k + 1][k] == xNode;
    }
    InterSumIsIntersection(g, tree1, uNodeNum, |ch|, s);
    assert ch[..|ch|] == ch;
  }

  /** A T1 leaf against a T2 internal node: only the bit of the leaf changes. */
  method BitsLeafInt(m: ClustIntersectInfoMatrix, i: nat, j: nat, uNode: NodeRef, vNode: NodeRef)
    requires Ready(m, i, j) && j < |m.t2.post| && FilledLeafInt(m, i, j)
    requires uNode == m.t1.post[i] && vNode == m.t2.post[j] && uNode.Ext? && vNode.Int?
    modifies m.intT2toLeafT1
    ensures FilledLeafInt(m, i, j + 1)
  {
    var sum := SumLeafInt(m, i, j, uNode, vNode);
    var l1, b1 := uNode.i, vNode.i;
    var p1, p2 := m.t1.post, m.t2.post;
    ghost var before := m.intT2toLeafT1[..];
    assert forall b, l {:trigger before[b], m.alias1[l]} :: 0 <= b < |m.t2.children| && 0 <= l < |m.t1.names| ==>
      (m.alias1[l] in before[b] <==> Done(p1, p2, i, j, Ext(l), Int(b)) && m.alias1[l] in Cluster(m.idGroup, m.t2, Int(b)));
    AliasInRange(m.idGroup, m.t1, l1);
    SingletonInter(Cluster(m.idGroup, m.t2, vNode), m.alias1[l1]);
    m.SetT1ExtT2Int(l1, b1, sum);
    DoneNext(p1, p2, i, j);
    forall b, l | 0 <= b < |m.t2.children| && 0 <= l < |m.t1.names|
      ensures m.alias1[l] in m.intT2toLeafT1[b] <==>
                Done(p1, p2, i, j + 1, Ext(l), Int(b)) && m.alias1[l] in Cluster(m.idGroup, m.t2, Int(b))
    {
      assert m.alias1[l] in before[b] <==> Done(p1, p2, i, j, Ext(l), Int(b)) && m.alias1[l] in Cluster(m.idGroup, m.t2, Int(b));
      if b == b1 && l != l1 {
        AliasInjective(m.idGroup, m.t1, l, l1);
      }
    }
  }

  /** A T1 internal node against a T2 leaf: only the bit of the leaf changes. */
  method BitsIntLeaf(m: ClustIntersectInfoMatrix, i: nat, j: nat, uNode: NodeRef, vNode: NodeRef)
    requires Ready(m, i, j) && j < |m.t2.post| && FilledIntLeaf(m, i, j)
    requires uNode == m.t1.post[i] && vNode == m.t2.post[j] && uNode.Int? && vNode.Ext?
    modifies m.intT1toLeafT2
    ensures FilledIntLeaf(m, i, j + 1)
  {
    var sum := SumIntLeaf(m, i, j, uNode, vNode);
    var a1, l2 := uNode.i, vNode.i;
    var p1, p2 := m.t1.post, m.t2.post;
    ghost var before := m.intT1toLeafT2[..];
    assert forall a, l {:trigger before[a], m.alias2[l]} :: 0 <= a < |m.t1.children| && 0 <= l < |m.t2.names| ==>
      (m.alias2[l] in before[a] <==> Done(p1, p2, i, j, Int(a), Ext(l)) && m.alias2[l] in Cluster(m.idGroup, m.t1, Int(a)));
    AliasInRange(m.idGroup, m.t2, l2);
    SingletonInter(Cluster(m.idGroup, m.t1, uNode), m.alias2[l2]);
    m.SetT1IntT2Ext(a1, l2, sum);
    DoneNext(p1, p2, i, j);
    forall a, l | 0 <= a < |m.t1.children| && 0 <= l < |m.t2.names|
      ensures m.alias2[l] in m.intT1toLeafT2[a] <==>
                Done(p1, p2, i, j + 1, Int(a), Ext(l)) && m.alias2[l] in Cluster(m.idGroup, m.t1, Int(a))
    {
      assert m.alias2[l] in before[a] <==> Done(p1, p2, i, j, Int(a), Ext(l)) && m.alias2[l] in Cluster(m.idGroup, m.t1, Int(a));
      if a == a1 && l != l2 {
        AliasInjective(m.idGroup, m.t2, l, l2);
      }
    }
  }

  /** setT1Int_T2Int on a cell whose size is right: the cells of the handled pairs stay right. */
  method StoreIntInt(m: ClustIntersectInfoMatrix, i: nat, j: nat, a1: nat, b1: nat, sum: int)
    requires m.Valid() && Shaped(m.t1) && Shaped(m.t2) && i < |m.t1.post| && j < |m.t2.post|
    requires m.t1.post[i] == Int(a1) && m.t2.post[j] == Int(b1) && a1 < m.intT1Num && b1 < m.intT2Num
    requires FilledIntInt(m, i, j)
    requires sum == |Cluster(m.idGroup, m.t1, Int(a1)) * Cluster(m.idGroup, m.t2, Int(b1))|
    modifies m.intCladeSize, m`eqClustList, m.eqClustT1, m.eqClustT2
    ensures m.Valid() && FilledIntInt(m, i, j + 1)
    ensures var same := sum == m.cSize1[a1] && sum == m.cSize2[b1];
            && m.eqClustList == old(m.eqClustList) + (if same then [ClustPair(a1, b1)] else [])
            && (forall a :: 0 <= a < m.intT1Num ==> m.eqClustT1[a] == (old(m.eqClustT1[a]) || (same && a == a1)))
            && (forall b :: 0 <= b < m.intT2Num ==> m.eqClustT2[b] == (old(m.eqClustT2[b]) || (same && b == b1)))
  {
    var p1, p2 := m.t1.post, m.t2.post;
    m.SetT1IntT2Int(a1, b1, sum);
    DoneNext(p1, p2, i, j);
    forall a, b | 0 <= a < |m.t1.children| && 0 <= b < |m.t2.children| && Done(p1, p2, i, j + 1, Int(a), Int(b))
      ensures m.intCladeSize[a, b] == |Cluster(m.idGroup, m.t1, Int(a)) * Cluster(m.idGroup, m.t2, Int(b))|
    {
      if a != a1 || b != b1 {
        assert Done(p1, p2, i, j, Int(a), Int(b));
      }
    }
  }

  /** The recorded pairs after one more column, given the pairs before it. */
  lemma RecordNext(g: IdGroup, t1: Tree, t2: Tree, i: nat, j: nat, list: seq<ClustPair>)
    requires Valid(t1) && Valid(t2) && i < |t1.post| && j < |t2.post|
    requires list == EqPrefix(g, t1, t2, t1.post[..i], t2.post) + EqRow(g, t1, t2, t1.post[i], t2.post[..j])
    ensures IsNode(t1, t1.post[i]) && IsNode(t2, t2.post[j])
    ensures var u, v := t1.post[i], t2.post[j];
            list + (if u.Int? && v.Int? && SameClade(g, t1, t2, u.i, v.i) then [ClustPair(u.i, v.i)] else []) ==
            EqPrefix(g, t1, t2, t1.post[..i], t2.post) + EqRow(g, t1, t2, t1.post[i], t2.post[..j + 1])
  {
    EqRowNext(g, t1, t2, t1.post[i], t2.post, j);
  }

  /** Two internal nodes: the cell is stored and, when the clusters agree, the pair is recorded. */
  method CellIntInt(m: ClustIntersectInfoMatrix, i: nat, j: nat, uNode: NodeRef, vNode: NodeRef)
    requires Ready(m, i, j) && j < |m.t2.post|
    requires FilledIntInt(m, i, j) && FilledLeafInt(m, i, j) && SizesKnown(m) && FlagsMatch(m) && EqSoFar(m, i, j)
    requires uNode == m.t1.post[i] && vNode == m.t2.post[j] && uNode.Int? && vNode.Int?
    modifies m.intCladeSize, m`eqClustList, m.eqClustT1, m.eqClustT2
    ensures Ready(m, i, j + 1)
    ensures FilledIntInt(m, i, j + 1) && SizesKnown(m) && FlagsMatch(m) && EqSoFar(m, i, j + 1)
  {
    var sum := SumIntInt(m, i, j, uNode, vNode);
    var a1, b1 := uNode.i, vNode.i;
    ghost var oldList := m.eqClustList;
    ghost var oldFlags1, oldFlags2 := m.eqClustT1[..], m.eqClustT2[..];
    ghost var same := SameClade(m.idGroup, m.t1, m.t2, a1, b1);
    RecordNext(m.idGroup, m.t1, m.t2, i, j, oldList);
    StoreIntInt(m, i, j, a1, b1, sum);
    FlagsRecord(oldFlags1, oldList, m.eqClustT1[..], m.eqClustList, ClustPair(a1, b1), same, true);
    FlagsRecord(oldFlags2, oldList, m.eqClustT2[..], m.eqClustList, ClustPair(a1, b1), same, false);
  }

  /** One visit of calcClustIntersectMatrix's inner loop: the pair (post1[i], post2[j]). */
  method VisitPair(m: ClustIntersectInfoMatrix, i: nat, j: nat, uNode: NodeRef, vNode: NodeRef)
    requires Stage(m, i, j) && j < |m.t2.post|
    requires uNode == m.t1.post[i] && vNode == m.t2.post[j]
    modifies m`eqClustList, m.intCladeSize, m.intT1toLeafT2, m.intT2toLeafT1, m.eqClustT1, m.eqClustT2
    ensures Stage(m, i, j + 1)
  {
    StepOthers(m, i, j);
    if uNode.Ext? && vNode.Ext? {
      return;
    }
    if uNode.Ext? {
      BitsLeafInt(m, i, j, uNode, vNode);
    } else if vNode.Ext? {
      BitsIntLeaf(m, i, j, uNode, vNode);
    } else {
      CellIntInt(m, i, j, uNode, vNode);
    }
  }

  /** One pass of calcClustIntersectMatrix's outer loop: the node post1[i] meets every node of T2 in post order. */
  method FillRow(m: ClustIntersectInfoMatrix, i: nat, postOrderT1: array<NodeRef>, postOrderT2: array<NodeRef>)
    requires Outer(m, i) && i < |m.t1.post|
    requires postOrderT1.Length == |m.t1.post| && forall p :: 0 <= p < |m.t1.post| ==> postOrderT1[p] == m.t1.post[p]
    requires postOrderT2.Length == |m.t2.post| && forall p :: 0 <= p < |m.t2.post| ==> postOrderT2[p] == m.t2.post[p]
    modifies m`eqClustList, m.intCladeSize, m.intT1toLeafT2, m.intT2toLeafT1, m.eqClustT1, m.eqClustT2
    ensures Outer(m, i + 1)
  {
    var allT2Num := |m.t2.children| + |m.t2.names|;
    var uNode := postOrderT1[i];
    RowStart(m, i);
    for j := 0 to allT2Num
      invariant Stage(m, i, j)
    {
      var vNode := postOrderT2[j];
      VisitPair(m, i, j, uNode, vNode);
    }
    RowEnd(m, i);
  }

  /** The outer loop of calcClustIntersectMatrix: every node of T1 in post order. */
  method FillRows(m: ClustIntersectInfoMatrix, postOrderT1: array<NodeRef>, postOrderT2: array<NodeRef>)
    requires Outer(m, 0)
    requires postOrderT1.Length == |m.t1.post| && forall p :: 0 <= p < |m.t1.post| ==> postOrderT1[p] == m.t1.post[p]
    requires postOrderT2.Length == |m.t2.post| && forall p :: 0 <= p < |m.t2.post| ==> postOrderT2[p] == m.t2.post[p]
    modifies m`eqClustList, m.intCladeSize, m.intT1toLeafT2, m.intT2toLeafT1, m.eqClustT1, m.eqClustT2
    ensures Outer(m, |m.t1.post|)
  {
    var allT1Num := |m.t1.children| + |m.t1.names|;
    assert allT1Num == |m.t1.post|;
    for i := 0 to allT1Num
      invariant Outer(m, i)
    {
      FillRow(m, i, postOrderT1, postOrderT2);
    }
  }

  /** Before the first visit nothing is handled or recorded. */
  lemma StartFilled(m: ClustIntersectInfoMatrix)
    requires m.Valid() && Shaped(m.t1) && Shaped(m.t2)
    requires forall a, b :: 0 <= a < m.intT1Num && 0 <= b < m.intT2Num ==> m.intCladeSize[a, b] == 0
    requires forall a :: 0 <= a < m.intT1Num ==> m.intT1toLeafT2[a] == {} && !m.eqClustT1[a]
    requires forall b :: 0 <= b < m.intT2Num ==> m.intT2toLeafT1[b] == {} && !m.eqClustT2[b]
    requires m.eqClustList == []
    ensures Filled(m, 0, 0) && FlagsMatch(m)
  {
  }

  /**
   * The constructor, init and the two calcCladeSizes calls that open
   * calcClustIntersectMatrix: a fresh table with the clade sizes and nothing else.
   */
  method NewTable(tree1: Tree, tree2: Tree, idGroup: IdGroup) returns (m: ClustIntersectInfoMatrix)
    requires Valid(tree1) && Valid(tree2) && Covers(idGroup, tree1) && Covers(idGroup, tree2)
    ensures fresh(m) && fresh(m.intCladeSize) && fresh(m.intT1toLeafT2) && fresh(m.intT2toLeafT1)
    ensures fresh(m.eqClustT1) && fresh(m.eqClustT2)
    ensures m.t1 == tree1 && m.t2 == tree2 && m.idGroup == idGroup
    ensures Outer(m, 0)
  {
    m := new ClustIntersectInfoMatrix(tree1, tree2, idGroup);
    var postOrderT1 := GetNodesInPostOrder(tree1);
    var postOrderT2 := GetNodesInPostOrder(tree2);
    CalcCladeSizes(tree1, postOrderT1, m.cSize1);
    CalcCladeSizes(tree2, postOrderT2, m.cSize2);
    StartFilled(m);
    assert tree1.post[..0] == [];
  }

  /** Once every row is done, every cell holds the size of its intersection. */
  lemma TableComplete(m: ClustIntersectInfoMatrix)
    requires m.Valid() && Valid(m.t1) && Valid(m.t2) && Covers(m.idGroup, m.t1) && Covers(m.idGroup, m.t2)
    requires Filled(m, |m.t1.post|, 0)
    ensures forall u, v :: IsNode(m.t1, u) && IsNode(m.t2, v) ==>
              m.GetInterSize(u, v) == |Cluster(m.idGroup, m.t1, u) * Cluster(m.idGroup, m.t2, v)|
  {
    var g, p1, p2 := m.idGroup, m.t1.post, m.t2.post;
    Whole(p1);
    forall u, v | IsNode(m.t1, u) && IsNode(m.t2, v)
      ensures m.GetInterSize(u, v) == |Cluster(g, m.t1, u) * Cluster(g, m.t2, v)|
    {
      assert u in p1;
      assert Done(p1, p2, |p1|, 0, u, v);
      if u.Ext? && v.Ext? {
        SingletonInter({m.alias1[u.i]}, m.alias2[v.i]);
      } else if u.Ext? {
        SingletonInter(Cluster(g, m.t2, v), m.alias1[u.i]);
      } else if v.Ext? {
        SingletonInter(Cluster(g, m.t1, u), m.alias2[v.i]);
      }
    }
  }

  /**
   * calcClustIntersectMatrix: visits every pair of nodes, both trees in post
   * order, and fills each pair's cell from the cells of the children, which are
   * already filled; equal clusters are recorded on the way.
   */
  method CalcClustIntersectMatrix(tree1: Tree, tree2: Tree, idGroup: IdGroup) returns (resultMatrix: ClustIntersectInfoMatrix)
    requires Valid(tree1) && Valid(tree2) && Covers(idGroup, tree1) && Covers(idGroup, tree2)
    ensures fresh(resultMatrix) && resultMatrix.Valid()
    ensures resultMatrix.t1 == tree1 && resultMatrix.t2 == tree2 && resultMatrix.idGroup == idGroup
    ensures forall u, v :: IsNode(tree1, u) && IsNode(tree2, v) ==>
              resultMatrix.GetInterSize(u, v) == |Cluster(idGroup, tree1, u) * Cluster(idGroup, tree2, v)|
    ensures SizesKnown(resultMatrix)
    ensures resultMatrix.eqClustList == EqPairs(idGroup, tree1, tree2)
    ensures FlagsMatch(resultMatrix)
  {
    resultMatrix := NewTable(tree1, tree2, idGroup);
    var postOrderT1 := GetNodesInPostOrder(tree1);
    var postOrderT2 := GetNodesInPostOrder(tree2);
    FillRows(resultMatrix, postOrderT1, postOrderT2);
    TableComplete(resultMatrix);
    Whole(tree1.post);
  }

  /** choose2: the number of unordered pairs out of n, 0 below two. */
  function Choose2(n: int): (r: int)
    ensures n < 2 ==> r == 0
    ensures n >= 2 ==> r == n * (n - 1) / 2
    ensures r >= 0
  {
    if n < 2 then 0
    else if n == 2 then 1
    else ShiftRight1(n * (n - 1))
  }

  /** Java's `x >> 1` on a non-negative long: x halved, rounding down. */
  function ShiftRight1(x: int): (r: int)
    requires x >= 0
    ensures 2 * r <= x <= 2 * r + 1
  {
    x / 2
  }

  /** The unordered pairs a < b of numbers below n. */
  ghost function PairsBelow(n: nat): set<(nat, nat)>
  {
    set a: nat, b: nat | a < b < n :: (a, b)
  }

  /** The pairs (a, c) with a below k. */
  ghost function Column(k: nat, c: nat): set<(nat, nat)>
  {
    set a: nat | a < k :: (a, c)
  }

  /** choose2 counts the pairs it is named after. */
  lemma {:induction false} Choose2CountsPairs(n: nat)
    ensures |PairsBelow(n)| == Choose2(n)
  {
    if n > 0 {
      Choose2CountsPairs(n - 1);
      PairsSplit(n);
      ColumnCard(n - 1, n - 1);
      Choose2Step(n);
    }
  }

  /** Pascal's rule for pairs. */
  lemma Choose2Step(n: int)
    requires n >= 1
    ensures Choose2(n) == Choose2(n - 1) + (n - 1)
  {
    if n >= 3 {
      assert n * (n - 1) == (n - 1) * (n - 2) + 2 * (n - 1);
    }
  }

  lemma PairsSplit(n: nat)
    requires n > 0
    ensures PairsBelow(n) == PairsBelow(n - 1) + Column(n - 1, n - 1)
    ensures PairsBelow(n - 1) !! Column(n - 1, n - 1)
  {
    forall p | p in PairsBelow(n)
      ensures p in PairsBelow(n - 1) + Column(n - 1, n - 1)
    {
      if p.1 < n - 1 {
        assert p in PairsBelow(n - 1);
      } else {
        assert p in Column(n - 1, n - 1);
      }
    }
  }

  lemma {:induction false} ColumnCard(k: nat, c: nat)
    ensures |Column(k, c)| == k
  {
    if k > 0 {
      ColumnCard(k - 1, c);
      assert Column(k, c) == Column(k - 1, c) + {(k - 1, c)};
    }
  }

  /** The tree is binary: two children at every non-root internal node, and two
      (rooted) or three (unrooted) at the root. */
  predicate Binary(t: Tree, isRooted: bool)
    requires Shaped(t)
  {
    && (forall k :: 0 <= k < RootIndex(t) ==> |t.children[k]| == 2)
    && |t.children[RootIndex(t)]| == (if isRooted then 2 else 3)
  }

  /** isBinary: a scan over the internal nodes that stops at the first one
      with the wrong number of children. */
  method IsBinary(t: Tree, isRooted: bool) returns (r: bool)
    requires Shaped(t)
    ensures r <==> Binary(t, isRooted)
  {
    var intNum := |t.children|;
    var i := 0;
    while i < intNum
      invariant 0 <= i <= intNum
      invariant forall k :: 0 <= k < i ==> |t.children[k]| == 2 || k == RootIndex(t)
      invariant i == intNum ==> |t.children[RootIndex(t)]| == (if isRooted then 2 else 3)
      invariant i < intNum ==> i <= RootIndex(t)
    {
      var childNum := |t.children[i]|;
      if i == RootIndex(t) {
        if isRooted {
          if childNum != 2 {
            return false;
          }
        } else {
          if childNum != 3 {
            return false;
          }
        }
      } else {
        if childNum != 2 {
          return false;
        }
      }
      i := i + 1;
    }
    return true;
  }

  /** The number of parent steps from internal node i up to the root. */
  function Depth(t: Tree, i: nat): (r: nat)
    requires Shaped(t) && i < |t.children|
    ensures r == 0 <==> i == RootIndex(t)
    ensures r <= RootIndex(t) - i
    decreases RootIndex(t) - i
  {
    if i == RootIndex(t) then 0 else 1 + Depth(t, t.parent[i])
  }

  /** getNodeDepth: climbs from internal node i to the root, counting steps. */
  method GetNodeDepth(t: Tree, i: nat) returns (depth: nat)
    requires Shaped(t) && i < |t.children|
    ensures depth == Depth(t, i)
  {
    depth := 0;
    if i == RootIndex(t) {
      return 0;
    }
    var node := i;
    while node != RootIndex(t)
      invariant node < |t.children|
      invariant depth + Depth(t, node) == Depth(t, i)
      decreases RootIndex(t) - node
    {
      depth := depth + 1;
      node := t.parent[node];
    }
  }

  /** The names an id group holds. */
  function NameSet(g: IdGroup): set<string>
  {
    set k | 0 <= k < |g| :: g[k]
  }

  lemma NameSetPush(s: seq<string>, i: nat)
    requires i < |s|
    ensures NameSet(s[..i + 1]) == NameSet(s[..i]) + {s[i]}
    ensures NameSet(s[..i + 1]) == NameSet(s[..i + 1][..i]) + {s[i]}
  {
    assert s[..i + 1][..i] == s[..i];
    forall x | x in NameSet(s[..i + 1])
      ensures x in NameSet(s[..i]) + {s[i]}
    {
      var k :| 0 <= k < i + 1 && s[..i + 1][k] == x;
      if k < i {
        assert s[..i][k] == x;
      }
    }
    forall x | x in NameSet(s[..i]) + {s[i]}
      ensures x in NameSet(s[..i + 1])
    {
      if x == s[i] {
        assert s[..i + 1][i] == x;
      } else {
        var k :| 0 <= k < i && s[..i][k] == x;
        assert s[..i + 1][k] == x;
      }
    }
  }

  lemma NameSetAppend(s: seq<string>, x: string)
    ensures NameSet(s + [x]) == NameSet(s) + {x}
  {
    NameSetPush(s + [x], |s|);
    assert (s + [x])[..|s| + 1] == s + [x];
    assert (s + [x])[..|s|] == s;
  }

  /** mergeIdGroups: every name of either group once, in the unspecified order
      in which a hash set yields them. */
  method MergeIdGroups(g1: IdGroup, g2: IdGroup) returns (g: IdGroup)
    ensures NameSet(g) == NameSet(g1) + NameSet(g2)
    ensures forall a, b :: 0 <= a < b < |g| ==> g[a] != g[b]
  {
    var nameSet: set<string> := {};
    for i := 0 to |g1|
      invariant nameSet == NameSet(g1[..i])
    {
      NameSetPush(g1, i);
      if g1[i] !in nameSet {
        nameSet := nameSet + {g1[i]};
      }
    }
    Whole(g1);
    for i := 0 to |g2|
      invariant nameSet == NameSet(g1) + NameSet(g2[..i])
    {
      NameSetPush(g2, i);
      if g2[i] !in nameSet {
        nameSet := nameSet + {g2[i]};
      }
    }
    Whole(g2);
    g := ListNames(nameSet);
  }

  /** The identifier array built from a hash set of names, in the set's order. */
  method ListNames(nameSet: set<string>) returns (g: IdGroup)
    ensures NameSet(g) == nameSet
    ensures forall a, b :: 0 <= a < b < |g| ==> g[a] != g[b]
  {
    g := [];
    var rest := nameSet;
    while rest != {}
      invariant rest !! NameSet(g)
      invariant rest + NameSet(g) == nameSet
      invariant forall a, b :: 0 <= a < b < |g| ==> g[a] != g[b]
      decreases |rest|
    {
      var name :| name in rest;
      NameSetAppend(g, name);
      g := g + [name];
      rest := rest - {name};
    }
  }
}
