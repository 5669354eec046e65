/**
 * The triplet counters of TreeCmpUtils (section 7.2 of Bansal, Dong and
 * Fernandez-Baca, "Comparing and Aggregating Partially Resolved Trees"):
 * calcResolvedTriplets, calcResolvedAndEqualTriplets and calcResolvedOnlyInT1
 * with its memoised helpers r1 and gamma.
 *
 * Each counter is a loop over the post-order arrays; it is proved to return a
 * sum, over the visited nodes, of a per-node term stated as a function.
 */
module TreeCmpUtilsTriplets {
  import opened PalTree
  import opened ClustIntersectInfo
  import opened TreeCmpUtils

  // ---------------------------------------------------------------------------
  // calcResolvedTriplets

  /** The sum of C(α_x, 2) over the internal nodes x among cs. */
  function ChildPairs(sizes: seq<int>, cs: seq<NodeRef>): int
    requires forall k :: 0 <= k < |cs| && cs[k].Int? ==> cs[k].i < |sizes|
  {
    if cs == [] then 0
    else
      var c := cs[|cs| - 1];
      ChildPairs(sizes, cs[..|cs| - 1]) + (if c.Int? then Choose2(sizes[c.i]) else 0)
  }

  /** What calcResolvedTriplets adds for node x: nothing for a leaf or the root, otherwise
      (C(α_x, 2) minus the pairs inside one internal child) times the n − α_x leaves outside. */
  function ResolvedTerm(t: Tree, sizes: seq<int>, x: NodeRef): int
    requires Shaped(t) && IsNode(t, x) && |sizes| == |t.children|
  {
    match x
    case Ext(_) => 0
    case Int(i) =>
      if i == RootIndex(t) then 0
      else
        assert forall k :: 0 <= k < |t.children[i]| ==> ChildOk(t, i, t.children[i][k]);
        Choose2(sizes[i]) * (|t.names| - sizes[i]) - ChildPairs(sizes, t.children[i]) * (|t.names| - sizes[i])
  }

  /** The sum of the terms of the nodes ps. */
  function ResolvedSum(t: Tree, sizes: seq<int>, ps: seq<NodeRef>): int
    requires Shaped(t) && |sizes| == |t.children|
    requires forall p :: 0 <= p < |ps| ==> IsNode(t, ps[p])
  {
    if ps == [] then 0
    else ResolvedSum(t, sizes, ps[..|ps| - 1]) + ResolvedTerm(t, sizes, ps[|ps| - 1])
  }

  lemma ResolvedSumSnoc(t: Tree, sizes: seq<int>, ps: seq<NodeRef>, i: nat)
    requires Shaped(t) && |sizes| == |t.children| && i < |ps|
    requires forall p :: 0 <= p < |ps| ==> IsNode(t, ps[p])
    ensures ResolvedSum(t, sizes, ps[..i + 1]) == ResolvedSum(t, sizes, ps[..i]) + ResolvedTerm(t, sizes, ps[i])
  {
    assert ps[..i + 1][..i] == ps[..i];
  }

  /** calcResolvedTriplets: the sum of the node terms over the post-order walk. */
  method CalcResolvedTriplets(t: Tree, postOrderNodes: array<NodeRef>, cladeSizeTab: array<int>) returns (R: int)
    requires Valid(t) && postOrderNodes[..] == t.post && cladeSizeTab.Length == |t.children|
    ensures R == ResolvedSum(t, cladeSizeTab[..], t.post)
  {
    var allTNum := |t.children| + |t.names|;
    assert allTNum == |t.post|;
    R := 0;
    for i := 0 to allTNum
      invariant R == ResolvedSum(t, cladeSizeTab[..], t.post[..i])
    {
      var curNode := postOrderNodes[i];
      var fiV := NodeTerm(t, curNode, cladeSizeTab);
      ResolvedSumSnoc(t, cladeSizeTab[..], t.post, i);
      R := R + fiV;
    }
    Whole(t.post);
  }

  /** The body of the outer loop of calcResolvedTriplets for one node. */
  method NodeTerm(t: Tree, curNode: NodeRef, cladeSizeTab: array<int>) returns (fiV: int)
    requires Shaped(t) && IsNode(t, curNode) && cladeSizeTab.Length == |t.children|
    ensures fiV == ResolvedTerm(t, cladeSizeTab[..], curNode)
  {
    if curNode.Ext? || curNode.i == RootIndex(t) {
      return 0;
    }
    var n := |t.names|;
    var intId := curNode.i;
    var alfaV := cladeSizeTab[intId];
    var betaV := n - alfaV;
    var gammaV := Choose2(alfaV) * betaV;
    var childASum := ChildPairsOf(t, intId, cladeSizeTab);
    fiV := gammaV - childASum * betaV;
  }

  /** The inner loop of calcResolvedTriplets. */
  method ChildPairsOf(t: Tree, intId: nat, cladeSizeTab: array<int>) returns (childASum: int)
    requires Shaped(t) && intId < |t.children| && cladeSizeTab.Length == |t.children|
    ensures forall k :: 0 <= k < |t.children[intId]| ==> ChildOk(t, intId, t.children[intId][k])
    ensures childASum == ChildPairs(cladeSizeTab[..], t.children[intId])
  {
    var ch := t.children[intId];
    assert forall k :: 0 <= k < |ch| ==> ChildOk(t, intId, ch[k]);
    childASum := 0;
    for j := 0 to |ch|
      invariant childASum == ChildPairs(cladeSizeTab[..], ch[..j])
    {
      var child := ch[j];
      Snoc(ch, j);
      if child.Ext? {
        continue;
      }
      childASum := childASum + Choose2(cladeSizeTab[child.i]);
    }
    Whole(ch);
  }

  /** Twice choose2 is n(n − 1) for every count n. */
  lemma {:induction false} Choose2Double(n: nat)
    ensures 2 * Choose2(n) == n * (n - 1)
  {
    if n < 2 {
      assert n * (n - 1) == 0;
    } else {
      Choose2Double(n - 1);
      Choose2Step(n);
      assert (n - 1) * (n - 2) + 2 * (n - 1) == n * (n - 1);
    }
  }

  /** Pairs of a union of two disjoint groups: at least the pairs inside each group. */
  lemma Choose2Superadditive(a: nat, b: nat)
    ensures Choose2(a) + Choose2(b) <= Choose2(a + b)
  {
    Choose2Double(a);
    Choose2Double(b);
    Choose2Double(a + b);
    PairsOfUnion(a, b);
    assert 0 <= a * b;
  }

  /** The ordered pairs of a union of two groups: those inside each group and those across. */
  lemma PairsOfUnion(a: int, b: int)
    ensures (a + b) * (a + b - 1) == a * (a - 1) + b * (b - 1) + 2 * (a * b)
  {
    calc {
      (a + b) * (a + b - 1);
      (a + b) * (a - 1) + (a + b) * b;
      a * (a - 1) + b * (a - 1) + a * b + b * b;
      a * (a - 1) + b * (b - 1) + 2 * (a * b);
    }
  }

  lemma Choose2Monotone(a: nat, b: nat)
    requires a <= b
    ensures Choose2(a) <= Choose2(b)
  {
    Choose2Superadditive(a, b - a);
  }

  /** With the real clade sizes, the pairs inside internal children are at most the pairs of their union. */
  lemma {:induction false} ChildPairsBound(t: Tree, sizes: seq<int>, owner: nat, cs: seq<NodeRef>)
    requires Shaped(t) && |sizes| == |t.children| && owner < |t.children|
    requires forall k :: 0 <= k < |cs| ==> ChildOk(t, owner, cs[k])
    requires forall k :: 0 <= k < |cs| && cs[k].Int? ==> cs[k].i < |sizes|
    requires forall a :: 0 <= a < |t.children| ==> sizes[a] == |Leaves(t, Int(a))|
    ensures ChildPairs(sizes, cs) <= Choose2(SizeSum(t, cs, owner))
  {
    if cs != [] {
      var c := cs[|cs| - 1];
      assert ChildOk(t, owner, c);
      ChildPairsBound(t, sizes, owner, cs[..|cs| - 1]);
      Choose2Superadditive(SizeSum(t, cs[..|cs| - 1], owner), |Leaves(t, c)|);
    }
  }

  /** With the real clade sizes, every node term of calcResolvedTriplets is non-negative. */
  lemma ResolvedTermNonNegative(t: Tree, sizes: seq<int>, x: NodeRef)
    requires Valid(t) && IsNode(t, x) && |sizes| == |t.children|
    requires forall a :: 0 <= a < |t.children| ==> sizes[a] == |Leaves(t, Int(a))|
    ensures ResolvedTerm(t, sizes, x) >= 0
  {
    if x.Int? && x.i != RootIndex(t) {
      ChildPairsWithin(t, sizes, x.i);
      var cp, c2, beta := ChildPairs(sizes, t.children[x.i]), Choose2(sizes[x.i]), |t.names| - sizes[x.i];
      MulMonotone(cp, c2, beta);
    }
  }

  /** The pairs inside the internal children of a node are at most its own pairs, and its clade fits the tree. */
  lemma ChildPairsWithin(t: Tree, sizes: seq<int>, i: nat)
    requires Valid(t) && i < |t.children| && |sizes| == |t.children|
    requires forall a :: 0 <= a < |t.children| ==> sizes[a] == |Leaves(t, Int(a))|
    ensures forall k :: 0 <= k < |t.children[i]| ==> ChildOk(t, i, t.children[i][k])
    ensures 0 <= ChildPairs(sizes, t.children[i]) <= Choose2(sizes[i])
    ensures sizes[i] <= |t.names|
  {
    var ch := t.children[i];
    assert forall k :: 0 <= k < |ch| ==> ChildOk(t, i, ch[k]);
    ChildPairsBound(t, sizes, i, ch);
    SizeSumIsSize(t, i, |ch|);
    Whole(ch);
    Choose2Monotone(SizeSum(t, ch, i), sizes[i]);
    LeavesBound(t, Int(i));
    ChildPairsNonNegative(sizes, ch);
  }

  lemma {:induction false} ChildPairsNonNegative(sizes: seq<int>, cs: seq<NodeRef>)
    requires forall k :: 0 <= k < |cs| && cs[k].Int? ==> cs[k].i < |sizes|
    ensures ChildPairs(sizes, cs) >= 0
  {
    if cs != [] {
      ChildPairsNonNegative(sizes, cs[..|cs| - 1]);
    }
  }

  lemma MulMonotone(a: int, b: int, c: int)
    requires a <= b && c >= 0
    ensures a * c <= b * c
  {
  }

  /** A node has at most as many leaves as the tree. */
  lemma LeavesBound(t: Tree, x: NodeRef)
    requires Shaped(t) && IsNode(t, x)
    ensures |Leaves(t, x)| <= |t.names|
  {
    RangeSetCard(|t.names|);
    assert Leaves(t, x) <= RangeSet(|t.names|);
    SubsetCard(Leaves(t, x), RangeSet(|t.names|));
  }

  lemma SubsetCard(a: set<nat>, b: set<nat>)
    requires a <= b
    ensures |a| <= |b|
  {
    assert b == a + (b - a);
  }

  /** calcResolvedTriplets never returns a negative count. */
  lemma {:induction false} ResolvedSumNonNegative(t: Tree, sizes: seq<int>, ps: seq<NodeRef>)
    requires Valid(t) && |sizes| == |t.children|
    requires forall a :: 0 <= a < |t.children| ==> sizes[a] == |Leaves(t, Int(a))|
    requires forall p :: 0 <= p < |ps| ==> IsNode(t, ps[p])
    ensures ResolvedSum(t, sizes, ps) >= 0
  {
    if ps != [] {
      ResolvedSumNonNegative(t, sizes, ps[..|ps| - 1]);
      ResolvedTermNonNegative(t, sizes, ps[|ps| - 1]);
    }
  }

  // ---------------------------------------------------------------------------
  // calcResolvedAndEqualTriplets

  /** Internal nodes of t1 among cs index rows of the table. */
  predicate RowsOk(m: ClustIntersectInfoMatrix, cs: seq<NodeRef>)
    reads m
  {
    forall k :: 0 <= k < |cs| && cs[k].Int? ==> cs[k].i < m.intT1Num
  }

  /** Internal nodes of t2 among cs index columns of the table. */
  predicate ColumnsOk(m: ClustIntersectInfoMatrix, cs: seq<NodeRef>)
    reads m
  {
    forall k :: 0 <= k < |cs| && cs[k].Int? ==> cs[k].i < m.intT2Num
  }

  /** The sum, over the internal t1 nodes x among xs, of C(|x ∩ v|, 2). */
  function PairsWithColumn(m: ClustIntersectInfoMatrix, xs: seq<NodeRef>, v: nat): int
    reads m, m.intCladeSize
    requires m.Valid() && v < m.intT2Num && RowsOk(m, xs)
  {
    if xs == [] then 0
    else
      var x := xs[|xs| - 1];
      PairsWithColumn(m, xs[..|xs| - 1], v) + (if x.Int? then Choose2(m.intCladeSize[x.i, v]) else 0)
  }

  /** The sum, over the internal t2 nodes y among ys, of C(|u ∩ y|, 2). */
  function PairsWithRow(m: ClustIntersectInfoMatrix, u: nat, ys: seq<NodeRef>): int
    reads m, m.intCladeSize
    requires m.Valid() && u < m.intT1Num && ColumnsOk(m, ys)
  {
    if ys == [] then 0
    else
      var y := ys[|ys| - 1];
      PairsWithRow(m, u, ys[..|ys| - 1]) + (if y.Int? then Choose2(m.intCladeSize[u, y.i]) else 0)
  }

  /** The sum, over the internal t1 nodes x among xs, of PairsWithRow(x, ys). */
  function PairsWithChildren(m: ClustIntersectInfoMatrix, xs: seq<NodeRef>, ys: seq<NodeRef>): int
    reads m, m.intCladeSize
    requires m.Valid() && RowsOk(m, xs) && ColumnsOk(m, ys)
  {
    if xs == [] then 0
    else
      var x := xs[|xs| - 1];
      PairsWithChildren(m, xs[..|xs| - 1], ys) + (if x.Int? then PairsWithRow(m, x.i, ys) else 0)
  }

  /** The trees of the table have their shape, so child lists index the table. */
  ghost predicate Ready(m: ClustIntersectInfoMatrix)
    reads m
  {
    m.Valid() && Shaped(m.t1) && Shaped(m.t2)
  }

  /** Neither node is a leaf or a root. */
  predicate Inner(m: ClustIntersectInfoMatrix, u: NodeRef, v: NodeRef)
    reads m
    requires Ready(m)
  {
    u.Int? && u.i < RootIndex(m.t1) && v.Int? && v.i < RootIndex(m.t2)
  }

  lemma ChildrenIndex(m: ClustIntersectInfoMatrix, u: nat, v: nat)
    requires Ready(m) && u < m.intT1Num && v < m.intT2Num
    ensures RowsOk(m, m.t1.children[u]) && ColumnsOk(m, m.t2.children[v])
  {
    assert forall k :: 0 <= k < |m.t1.children[u]| ==> ChildOk(m.t1, u, m.t1.children[u][k]);
    assert forall k :: 0 <= k < |m.t2.children[v]| ==> ChildOk(m.t2, v, m.t2.children[v][k]);
  }

  /** The leaves outside both clades, n − (|U| + |V| − |U ∩ V|), as the table has them. */
  function Outside(m: ClustIntersectInfoMatrix, u: nat, v: nat): int
    reads m, m.intCladeSize, m.cSize1, m.cSize2
    requires m.Valid() && u < m.intT1Num && v < m.intT2Num
  {
    m.extT1Num - (m.cSize1[u] + m.cSize2[v] - m.intCladeSize[u, v])
  }

  /** What calcResolvedAndEqualTriplets adds for the pair (u, v): the pairs inside U ∩ V that
      no internal child of u or of v keeps together (inclusion–exclusion over the children),
      times the leaves outside both clades; nothing when either node is a leaf or a root. */
  function EqualTerm(m: ClustIntersectInfoMatrix, u: NodeRef, v: NodeRef): int
    reads m, m.intCladeSize, m.cSize1, m.cSize2
    requires Ready(m) && IsNode(m.t1, u) && IsNode(m.t2, v)
  {
    if !Inner(m, u, v) then 0
    else
      ChildrenIndex(m, u.i, v.i);
      var xs := m.t1.children[u.i];
      var ys := m.t2.children[v.i];
      var neg := Outside(m, u.i, v.i);
      Choose2(m.intCladeSize[u.i, v.i]) * neg
        - PairsWithColumn(m, xs, v.i) * neg - PairsWithRow(m, u.i, ys) * neg
        + PairsWithChildren(m, xs, ys) * neg
  }

  /** The terms of u against every node of vs. */
  function EqualRow(m: ClustIntersectInfoMatrix, u: NodeRef, vs: seq<NodeRef>): int
    reads m, m.intCladeSize, m.cSize1, m.cSize2
    requires Ready(m) && IsNode(m.t1, u)
    requires forall q :: 0 <= q < |vs| ==> IsNode(m.t2, vs[q])
  {
    if vs == [] then 0
    else EqualRow(m, u, vs[..|vs| - 1]) + EqualTerm(m, u, vs[|vs| - 1])
  }

  /** The terms of every node of us against every node of vs. */
  function EqualSum(m: ClustIntersectInfoMatrix, us: seq<NodeRef>, vs: seq<NodeRef>): int
    reads m, m.intCladeSize, m.cSize1, m.cSize2
    requires Ready(m)
    requires forall p :: 0 <= p < |us| ==> IsNode(m.t1, us[p])
    requires forall q :: 0 <= q < |vs| ==> IsNode(m.t2, vs[q])
  {
    if us == [] then 0
    else EqualSum(m, us[..|us| - 1], vs) + EqualRow(m, us[|us| - 1], vs)
  }

  /** The post-order arrays hold the trees' walks. */
  ghost predicate Walks(m: ClustIntersectInfoMatrix, postOrderT1: array<NodeRef>, postOrderT2: array<NodeRef>)
    reads m, postOrderT1, postOrderT2
  {
    m.Valid() && Valid(m.t1) && Valid(m.t2) && postOrderT1[..] == m.t1.post && postOrderT2[..] == m.t2.post
  }

  /** calcResolvedAndEqualTriplets: the pair terms summed over both post-order walks. */
  method CalcResolvedAndEqualTriplets(cIM: ClustIntersectInfoMatrix, postOrderT1: array<NodeRef>,
                                      postOrderT2: array<NodeRef>) returns (S: int)
    requires Walks(cIM, postOrderT1, postOrderT2)
    ensures S == EqualSum(cIM, cIM.t1.post, cIM.t2.post)
  {
    var allT1Num := cIM.intT1Num + cIM.extT1Num;
    assert allT1Num == |cIM.t1.post|;
    S := 0;
    for i := 0 to allT1Num
      invariant S == EqualSum(cIM, cIM.t1.post[..i], cIM.t2.post)
    {
      var uNode := postOrderT1[i];
      EqualSumSnoc(cIM, cIM.t1.post, cIM.t2.post, i);
      var s := EqualStep(cIM, uNode, postOrderT2);
      S := S + s;
    }
    Whole(cIM.t1.post);
  }

  /** The body of the outer loop: leaves and the root are skipped. */
  method EqualStep(cIM: ClustIntersectInfoMatrix, uNode: NodeRef, postOrderT2: array<NodeRef>) returns (S: int)
    requires Ready(cIM) && IsNode(cIM.t1, uNode) && ValidPost(cIM.t2) && postOrderT2[..] == cIM.t2.post
    ensures S == EqualRow(cIM, uNode, cIM.t2.post)
  {
    if uNode.Ext? || uNode.i == RootIndex(cIM.t1) {
      EqualRowZero(cIM, uNode, cIM.t2.post);
      return 0;
    }
    S := EqualRowOf(cIM, uNode, postOrderT2);
  }

  lemma EqualSumSnoc(m: ClustIntersectInfoMatrix, us: seq<NodeRef>, vs: seq<NodeRef>, i: nat)
    requires Ready(m) && i < |us|
    requires forall p :: 0 <= p < |us| ==> IsNode(m.t1, us[p])
    requires forall q :: 0 <= q < |vs| ==> IsNode(m.t2, vs[q])
    ensures EqualSum(m, us[..i + 1], vs) == EqualSum(m, us[..i], vs) + EqualRow(m, us[i], vs)
  {
    assert us[..i + 1][..i] == us[..i];
  }

  lemma EqualRowSnoc(m: ClustIntersectInfoMatrix, u: NodeRef, vs: seq<NodeRef>, j: nat)
    requires Ready(m) && IsNode(m.t1, u) && j < |vs|
    requires forall q :: 0 <= q < |vs| ==> IsNode(m.t2, vs[q])
    ensures EqualRow(m, u, vs[..j + 1]) == EqualRow(m, u, vs[..j]) + EqualTerm(m, u, vs[j])
  {
    assert vs[..j + 1][..j] == vs[..j];
  }

  /** A leaf or the root of t1 adds nothing against any node of t2. */
  lemma {:induction false} EqualRowZero(m: ClustIntersectInfoMatrix, u: NodeRef, vs: seq<NodeRef>)
    requires Ready(m) && IsNode(m.t1, u) && (u.Ext? || u.i == RootIndex(m.t1))
    requires forall q :: 0 <= q < |vs| ==> IsNode(m.t2, vs[q])
    ensures EqualRow(m, u, vs) == 0
  {
    if vs != [] {
      EqualRowZero(m, u, vs[..|vs| - 1]);
    }
  }

  /** The inner loop of calcResolvedAndEqualTriplets, over the nodes of t2. */
  method EqualRowOf(cIM: ClustIntersectInfoMatrix, uNode: NodeRef, postOrderT2: array<NodeRef>) returns (S: int)
    requires Ready(cIM) && uNode.Int? && uNode.i < RootIndex(cIM.t1)
    requires ValidPost(cIM.t2) && postOrderT2[..] == cIM.t2.post
    ensures S == EqualRow(cIM, uNode, cIM.t2.post)
  {
    var allT2Num := cIM.intT2Num + cIM.extT2Num;
    assert allT2Num == |cIM.t2.post|;
    S := 0;
    for j := 0 to allT2Num
      invariant S == EqualRow(cIM, uNode, cIM.t2.post[..j])
    {
      var vNode := postOrderT2[j];
      var s := EqualTermOf(cIM, uNode, vNode);
      EqualRowSnoc(cIM, uNode, cIM.t2.post, j);
      S := S + s;
    }
    Whole(cIM.t2.post);
  }

  /** The body of the inner loop for one pair (u, v): the four parts n1 − n2 − n3 + n4. */
  method EqualTermOf(cIM: ClustIntersectInfoMatrix, uNode: NodeRef, vNode: NodeRef) returns (s: int)
    requires Ready(cIM) && uNode.Int? && uNode.i < RootIndex(cIM.t1) && IsNode(cIM.t2, vNode)
    ensures s == EqualTerm(cIM, uNode, vNode)
  {
    if vNode.Ext? || vNode.i == RootIndex(cIM.t2) {
      return 0;
    }
    var uNodeNum := uNode.i;
    var vNodeNum := vNode.i;
    ChildrenIndex(cIM, uNodeNum, vNodeNum);
    var uvSize := cIM.GetT1IntT2Int(uNodeNum, vNodeNum);
    var uvSizeNeg := cIM.extT1Num - (cIM.cSize1[uNodeNum] + cIM.cSize2[vNodeNum] - uvSize);
    var n1 := Choose2(uvSize) * uvSizeNeg;
    var childUSum := SumWithColumn(cIM, cIM.t1.children[uNodeNum], vNodeNum);
    var n2 := childUSum * uvSizeNeg;
    var childVSum := SumWithRow(cIM, uNodeNum, cIM.t2.children[vNodeNum]);
    var n3 := childVSum * uvSizeNeg;
    var childXySum := SumWithChildren(cIM, cIM.t1.children[uNodeNum], cIM.t2.children[vNodeNum]);
    var n4 := childXySum * uvSizeNeg;
    s := n1 - n2 - n3 + n4;
  }

  /** The n2 loop: over the children x of u. */
  method SumWithColumn(cIM: ClustIntersectInfoMatrix, xs: seq<NodeRef>, vNodeNum: nat) returns (sum: int)
    requires cIM.Valid() && vNodeNum < cIM.intT2Num && RowsOk(cIM, xs)
    ensures sum == PairsWithColumn(cIM, xs, vNodeNum)
  {
    sum := 0;
    for k := 0 to |xs|
      invariant sum == PairsWithColumn(cIM, xs[..k], vNodeNum)
    {
      Snoc(xs, k);
      var xNode := xs[k];
      if xNode.Ext? {
        continue;
      }
      var xvSize := cIM.GetT1IntT2Int(xNode.i, vNodeNum);
      sum := sum + Choose2(xvSize);
    }
    Whole(xs);
  }

  /** The n3 loop, and the inner loop of n4: over the children y of v. */
  method SumWithRow(cIM: ClustIntersectInfoMatrix, uNodeNum: nat, ys: seq<NodeRef>) returns (sum: int)
    requires cIM.Valid() && uNodeNum < cIM.intT1Num && ColumnsOk(cIM, ys)
    ensures sum == PairsWithRow(cIM, uNodeNum, ys)
  {
    sum := 0;
    for k := 0 to |ys|
      invariant sum == PairsWithRow(cIM, uNodeNum, ys[..k])
    {
      Snoc(ys, k);
      var yNode := ys[k];
      if yNode.Ext? {
        continue;
      }
      var uySize := cIM.GetT1IntT2Int(uNodeNum, yNode.i);
      sum := sum + Choose2(uySize);
    }
    Whole(ys);
  }

  /** The outer loop of n4: over the children x of u. */
  method SumWithChildren(cIM: ClustIntersectInfoMatrix, xs: seq<NodeRef>, ys: seq<NodeRef>) returns (sum: int)
    requires cIM.Valid() && RowsOk(cIM, xs) && ColumnsOk(cIM, ys)
    ensures sum == PairsWithChildren(cIM, xs, ys)
  {
    sum := 0;
    for k := 0 to |xs|
      invariant sum == PairsWithChildren(cIM, xs[..k], ys)
    {
      Snoc(xs, k);
      var xNode := xs[k];
      if xNode.Ext? {
        continue;
      }
      var childYSum := SumWithRow(cIM, xNode.i, ys);
      sum := sum + childYSum;
    }
    Whole(xs);
  }

  /** What calcClustIntersectMatrix promises about the table it returns. */
  ghost predicate TableSound(m: ClustIntersectInfoMatrix)
    reads m, m.intCladeSize, m.intT1toLeafT2, m.intT2toLeafT1, m.cSize1, m.cSize2
  {
    && m.Valid() && Valid(m.t1) && Valid(m.t2) && Covers(m.idGroup, m.t1) && Covers(m.idGroup, m.t2)
    && (forall u, v :: IsNode(m.t1, u) && IsNode(m.t2, v) ==>
          m.GetInterSize(u, v) == |Cluster(m.idGroup, m.t1, u) * Cluster(m.idGroup, m.t2, v)|)
    && SizesKnown(m)
  }

  /** The same, over trees on one leaf set whose id group is that of the first tree. */
  ghost predicate TableFilled(m: ClustIntersectInfoMatrix)
    reads m, m.intCladeSize, m.intT1toLeafT2, m.intT2toLeafT1, m.cSize1, m.cSize2
  {
    TableSound(m) && |m.idGroup| == |m.t1.names|
  }

  /** The ids of the group in neither of two clusters. */
  ghost function IdsOutside(g: IdGroup, a: set<int>, b: set<int>): set<int>
  {
    set k | k in RangeSet(|g|) && k !in a && k !in b
  }

  /** The factor shared by the four parts of a pair term counts the leaves outside both clades. */
  lemma OutsideCounts(m: ClustIntersectInfoMatrix, u: nat, v: nat)
    requires TableFilled(m) && u < m.intT1Num && v < m.intT2Num
    ensures Outside(m, u, v) == |IdsOutside(m.idGroup, Cluster(m.idGroup, m.t1, Int(u)), Cluster(m.idGroup, m.t2, Int(v)))|
    ensures Outside(m, u, v) >= 0
  {
    var g := m.idGroup;
    var a := Cluster(g, m.t1, Int(u));
    var b := Cluster(g, m.t2, Int(v));
    CellIsIntersection(m, u, v);
    CladeSizes(m, u, v);
    ClusterIds(g, m.t1, Int(u));
    ClusterIds(g, m.t2, Int(v));
    OutsideCard(g, a, b);
  }

  lemma CellIsIntersection(m: ClustIntersectInfoMatrix, u: nat, v: nat)
    requires TableFilled(m) && u < m.intT1Num && v < m.intT2Num
    ensures m.intCladeSize[u, v] == |Cluster(m.idGroup, m.t1, Int(u)) * Cluster(m.idGroup, m.t2, Int(v))|
  {
    assert m.GetInterSize(Int(u), Int(v)) == |Cluster(m.idGroup, m.t1, Int(u)) * Cluster(m.idGroup, m.t2, Int(v))|;
  }

  lemma CladeSizes(m: ClustIntersectInfoMatrix, u: nat, v: nat)
    requires TableFilled(m) && u < m.intT1Num && v < m.intT2Num
    ensures m.cSize1[u] == |Cluster(m.idGroup, m.t1, Int(u))| && m.cSize2[v] == |Cluster(m.idGroup, m.t2, Int(v))|
    ensures m.extT1Num == |m.idGroup|
  {
    ClusterSize(m.idGroup, m.t1, Int(u));
    ClusterSize(m.idGroup, m.t2, Int(v));
  }

  lemma OutsideCard(g: IdGroup, a: set<int>, b: set<int>)
    requires forall id :: id in a ==> 0 <= id < |g|
    requires forall id :: id in b ==> 0 <= id < |g|
    ensures |IdsOutside(g, a, b)| == |g| - (|a| + |b| - |a * b|)
  {
    var all: set<int> := RangeSet(|g|);
    RangeSetCard(|g|);
    assert IdsOutside(g, a, b) == all - (a + b);
    forall id | id in a + b
      ensures id in all
    {
      var l: nat := id;
      assert l in RangeSet(|g|);
    }
    UnionCard(a, b);
    DiffCard(all, a + b);
  }

  /** Every cluster id is a position of the group. */
  lemma ClusterIds(g: IdGroup, t: Tree, x: NodeRef)
    requires Shaped(t) && Covers(g, t) && IsNode(t, x)
    ensures forall id :: id in Cluster(g, t, x) ==> 0 <= id < |g|
  {
    forall id | id in Cluster(g, t, x)
      ensures 0 <= id < |g|
    {
      ClusterMember(g, t, x, id);
      var l :| l in Leaves(t, x) && IdOf(g, t.names[l]) == id;
      AliasInRange(g, t, l);
    }
  }

  lemma UnionCard(a: set<int>, b: set<int>)
    ensures |a + b| == |a| + |b| - |a * b|
  {
    assert a + b == a + (b - a);
    assert b == (b - a) + (a * b);
  }

  lemma DiffCard(a: set<int>, b: set<int>)
    requires b <= a
    ensures |a - b| == |a| - |b|
  {
    assert a == (a - b) + b;
  }

  // ---------------------------------------------------------------------------
  // calcResolvedOnlyInT1, r1 and gamma

  /** The nodes of t2 among xs. */
  predicate NodesOk(m: ClustIntersectInfoMatrix, xs: seq<NodeRef>)
    reads m
  {
    forall k :: 0 <= k < |xs| ==> IsNode(m.t2, xs[k])
  }

  /** The arguments of gamma: an internal pair u1, uk of t1, uk with a parent, and an internal v of t2. */
  predicate GammaArgs(m: ClustIntersectInfoMatrix, u1: int, uk: int, v: int)
    reads m
    requires Ready(m)
  {
    0 <= u1 < |m.t1.children| && 0 <= uk < RootIndex(m.t1) && 0 <= v < |m.t2.children|
  }

  /** The node u2 of gamma: uk itself when its parent is u1, otherwise uk's parent. */
  function U2(m: ClustIntersectInfoMatrix, u1: nat, uk: nat): (u2: nat)
    reads m
    requires Ready(m) && GammaArgs(m, u1, uk, 0)
    ensures u2 < |m.t1.children|
  {
    if m.t1.parent[uk] == u1 then uk else m.t1.parent[uk]
  }

  /** |x| − |u2 ∩ x|: the leaves of x of t2 outside u2 of t1. */
  function NegSize(m: ClustIntersectInfoMatrix, u2: nat, x: NodeRef): int
    reads m, m.intCladeSize, m.intT1toLeafT2, m.intT2toLeafT1, m.cSize2
    requires Ready(m) && u2 < |m.t1.children| && IsNode(m.t2, x)
  {
    m.GetSizeT2(x) - m.GetInterSize(Int(u2), x)
  }

  /** The n2 part of gamma over the children xs of v. */
  function GammaN2(m: ClustIntersectInfoMatrix, uk: nat, u2: nat, xs: seq<NodeRef>): int
    reads m, m.intCladeSize, m.intT1toLeafT2, m.intT2toLeafT1, m.cSize2
    requires Ready(m) && uk < |m.t1.children| && u2 < |m.t1.children| && NodesOk(m, xs)
  {
    if xs == [] then 0
    else
      var x := xs[|xs| - 1];
      GammaN2(m, uk, u2, xs[..|xs| - 1]) + Choose2(m.GetInterSize(Int(uk), x)) * NegSize(m, u2, x)
  }

  /** The n3 part of gamma over the children xs of v. */
  function GammaN3(m: ClustIntersectInfoMatrix, uk: nat, u2: nat, v: nat, xs: seq<NodeRef>): int
    reads m, m.intCladeSize, m.intT1toLeafT2, m.intT2toLeafT1, m.cSize2
    requires Ready(m) && uk < |m.t1.children| && u2 < |m.t1.children| && v < |m.t2.children| && NodesOk(m, xs)
  {
    if xs == [] then 0
    else
      var x := xs[|xs| - 1];
      GammaN3(m, uk, u2, v, xs[..|xs| - 1])
        + Choose2(m.GetInterSize(Int(uk), x)) * (NegSize(m, u2, Int(v)) - NegSize(m, u2, x))
  }

  /** The n4 part of gamma over the children xs of v. */
  function GammaN4(m: ClustIntersectInfoMatrix, uk: nat, u2: nat, v: nat, xs: seq<NodeRef>): int
    reads m, m.intCladeSize, m.intT1toLeafT2, m.intT2toLeafT1, m.cSize2
    requires Ready(m) && uk < |m.t1.children| && u2 < |m.t1.children| && v < |m.t2.children| && NodesOk(m, xs)
  {
    if xs == [] then 0
    else
      var x := xs[|xs| - 1];
      GammaN4(m, uk, u2, v, xs[..|xs| - 1])
        + m.GetInterSize(Int(uk), x) * NegSize(m, u2, x)
          * (m.GetInterSize(Int(uk), Int(v)) - m.GetInterSize(Int(uk), x))
  }

  lemma ChildrenNodes(m: ClustIntersectInfoMatrix, v: nat)
    requires Ready(m) && v < |m.t2.children|
    ensures NodesOk(m, m.t2.children[v])
  {
    assert forall k :: 0 <= k < |m.t2.children[v]| ==> ChildOk(m.t2, v, m.t2.children[v][k]);
  }

  /** gamma(u1, uk, v) = n1 − n2 − n3 − n4, with u2 as U2 picks it. */
  function Gamma(m: ClustIntersectInfoMatrix, u1: nat, uk: nat, v: nat): int
    reads m, m.intCladeSize, m.intT1toLeafT2, m.intT2toLeafT1, m.cSize2
    requires Ready(m) && GammaArgs(m, u1, uk, v)
  {
    GammaWith(m, uk, U2(m, u1, uk), v)
  }

  /** n1 − n2 − n3 − n4 for given uk and u2. */
  function GammaWith(m: ClustIntersectInfoMatrix, uk: nat, u2: nat, v: nat): int
    reads m, m.intCladeSize, m.intT1toLeafT2, m.intT2toLeafT1, m.cSize2
    requires Ready(m) && uk < |m.t1.children| && u2 < |m.t1.children| && v < |m.t2.children|
  {
    ChildrenNodes(m, v);
    var xs := m.t2.children[v];
    GammaN1(m, uk, u2, v) - GammaN2(m, uk, u2, xs) - GammaN3(m, uk, u2, v, xs) - GammaN4(m, uk, u2, v, xs)
  }

  /** The n1 part of gamma. */
  function GammaN1(m: ClustIntersectInfoMatrix, uk: nat, u2: nat, v: nat): int
    reads m, m.intCladeSize, m.intT1toLeafT2, m.intT2toLeafT1, m.cSize2
    requires Ready(m) && uk < |m.t1.children| && u2 < |m.t1.children| && v < |m.t2.children|
  {
    Choose2(m.GetInterSize(Int(uk), Int(v))) * NegSize(m, u2, Int(v))
  }

  /** The internal nodes among xs lie below the root of t1. */
  predicate BelowRoot(m: ClustIntersectInfoMatrix, xs: seq<NodeRef>)
    reads m
    requires Ready(m)
  {
    forall k :: 0 <= k < |xs| && xs[k].Int? ==> xs[k].i < RootIndex(m.t1)
  }

  /** The sum of gamma(pa, x, v) over the internal nodes x among xs. */
  function ChildGammas(m: ClustIntersectInfoMatrix, pa: nat, xs: seq<NodeRef>, v: nat): int
    reads m, m.intCladeSize, m.intT1toLeafT2, m.intT2toLeafT1, m.cSize2
    requires Ready(m) && pa < |m.t1.children| && v < |m.t2.children| && BelowRoot(m, xs)
  {
    if xs == [] then 0
    else
      var x := xs[|xs| - 1];
      ChildGammas(m, pa, xs[..|xs| - 1], v) + (if x.Int? then Gamma(m, pa, x.i, v) else 0)
  }

  lemma ChildrenBelowRoot(m: ClustIntersectInfoMatrix, u: nat)
    requires Ready(m) && u < RootIndex(m.t1)
    ensures BelowRoot(m, m.t1.children[u])
  {
    assert forall k :: 0 <= k < |m.t1.children[u]| ==> ChildOk(m.t1, u, m.t1.children[u][k]);
  }

  /** r1(u, v): gamma of u with its parent, less gamma of each internal child of u with that parent. */
  function R1(m: ClustIntersectInfoMatrix, u: nat, v: nat): int
    reads m, m.intCladeSize, m.intT1toLeafT2, m.intT2toLeafT1, m.cSize2
    requires Ready(m) && u < RootIndex(m.t1) && v < |m.t2.children|
  {
    ChildrenBelowRoot(m, u);
    var pa := m.t1.parent[u];
    Gamma(m, pa, u, v) - ChildGammas(m, pa, m.t1.children[u], v)
  }

  /** Every call r1 makes has u2 = u: for u itself and for each internal child of u. */
  lemma U2IsU(m: ClustIntersectInfoMatrix, u: nat, k: nat)
    requires Ready(m) && u < RootIndex(m.t1) && k < |m.t1.children[u]| && m.t1.children[u][k].Int?
    ensures GammaArgs(m, m.t1.parent[u], u, 0) && U2(m, m.t1.parent[u], u) == u
    ensures GammaArgs(m, m.t1.parent[u], m.t1.children[u][k].i, 0)
    ensures U2(m, m.t1.parent[u], m.t1.children[u][k].i) == u
  {
    assert ChildOk(m.t1, u, m.t1.children[u][k]);
  }

  /** The memo of gamma values: every entry is gamma of its key. */
  ghost predicate MemoSound(m: ClustIntersectInfoMatrix, gammaMap: map<(int, int, int), int>)
    reads m, m.intCladeSize, m.intT1toLeafT2, m.intT2toLeafT1, m.cSize2
    requires Ready(m)
  {
    forall key :: key in gammaMap ==>
      GammaArgs(m, key.0, key.1, key.2) && gammaMap[key] == Gamma(m, key.0, key.1, key.2)
  }

  /** gamma, with its three loops over the children of v. */
  method GammaOf(cIM: ClustIntersectInfoMatrix, u1: nat, uk: nat, v: nat) returns (r: int)
    requires Ready(cIM) && GammaArgs(cIM, u1, uk, v)
    ensures r == Gamma(cIM, u1, uk, v)
  {
    var u2: nat := if cIM.t1.parent[uk] == u1 then uk else cIM.t1.parent[uk];
    r := GammaParts(cIM, uk, u2, v);
  }

  /** The body of gamma once u2 is known. */
  method GammaParts(cIM: ClustIntersectInfoMatrix, uk: nat, u2: nat, v: nat) returns (r: int)
    requires Ready(cIM) && uk < |cIM.t1.children| && u2 < |cIM.t1.children| && v < |cIM.t2.children|
    ensures r == GammaWith(cIM, uk, u2, v)
  {
    var n1 := GammaN1Of(cIM, uk, u2, v);
    var xs := cIM.t2.children[v];
    ChildrenNodes(cIM, v);
    var n2 := GammaN2Of(cIM, uk, u2, xs);
    var n3 := GammaN3Of(cIM, uk, u2, v, xs);
    var n4 := GammaN4Of(cIM, uk, u2, v, xs);
    r := n1 - n2 - n3 - n4;
  }

  method GammaN1Of(cIM: ClustIntersectInfoMatrix, uk: nat, u2: nat, v: nat) returns (n1: int)
    requires Ready(cIM) && uk < |cIM.t1.children| && u2 < |cIM.t1.children| && v < |cIM.t2.children|
    ensures n1 == GammaN1(cIM, uk, u2, v)
  {
    var u2Negv := cIM.GetSizeT2(Int(v)) - cIM.GetInterSize(Int(u2), Int(v));
    n1 := Choose2(cIM.GetInterSize(Int(uk), Int(v))) * u2Negv;
  }

  method GammaN2Of(cIM: ClustIntersectInfoMatrix, uk: nat, u2: nat, xs: seq<NodeRef>) returns (sum: int)
    requires Ready(cIM) && uk < |cIM.t1.children| && u2 < |cIM.t1.children| && NodesOk(cIM, xs)
    ensures sum == GammaN2(cIM, uk, u2, xs)
  {
    sum := 0;
    for i := 0 to |xs|
      invariant sum == GammaN2(cIM, uk, u2, xs[..i])
    {
      Snoc(xs, i);
      var x := xs[i];
      var u2Negx := cIM.GetSizeT2(x) - cIM.GetInterSize(Int(u2), x);
      sum := sum + Choose2(cIM.GetInterSize(Int(uk), x)) * u2Negx;
    }
    Whole(xs);
  }

  method GammaN3Of(cIM: ClustIntersectInfoMatrix, uk: nat, u2: nat, v: nat, xs: seq<NodeRef>) returns (sum: int)
    requires Ready(cIM) && uk < |cIM.t1.children| && u2 < |cIM.t1.children| && v < |cIM.t2.children|
    requires NodesOk(cIM, xs)
    ensures sum == GammaN3(cIM, uk, u2, v, xs)
  {
    sum := 0;
    for i := 0 to |xs|
      invariant sum == GammaN3(cIM, uk, u2, v, xs[..i])
    {
      Snoc(xs, i);
      var x := xs[i];
      var u2Negv := cIM.GetSizeT2(Int(v)) - cIM.GetInterSize(Int(u2), Int(v));
      var u2Negx := cIM.GetSizeT2(x) - cIM.GetInterSize(Int(u2), x);
      sum := sum + Choose2(cIM.GetInterSize(Int(uk), x)) * (u2Negv - u2Negx);
    }
    Whole(xs);
  }

  method GammaN4Of(cIM: ClustIntersectInfoMatrix, uk: nat, u2: nat, v: nat, xs: seq<NodeRef>) returns (sum: int)
    requires Ready(cIM) && uk < |cIM.t1.children| && u2 < |cIM.t1.children| && v < |cIM.t2.children|
    requires NodesOk(cIM, xs)
    ensures sum == GammaN4(cIM, uk, u2, v, xs)
  {
    sum := 0;
    for i := 0 to |xs|
      invariant sum == GammaN4(cIM, uk, u2, v, xs[..i])
    {
      Snoc(xs, i);
      var x := xs[i];
      var u2Negx := cIM.GetSizeT2(x) - cIM.GetInterSize(Int(u2), x);
      sum := sum + cIM.GetInterSize(Int(uk), x) * u2Negx
                   * (cIM.GetInterSize(Int(uk), Int(v)) - cIM.GetInterSize(Int(uk), x));
    }
    Whole(xs);
  }

  /** One memoised gamma: the stored value when the key is present, else computed and stored. */
  method MemoGamma(cIM: ClustIntersectInfoMatrix, u1: nat, uk: nat, v: nat, gammaMap: map<(int, int, int), int>)
    returns (g: int, gammaMap': map<(int, int, int), int>)
    requires Ready(cIM) && GammaArgs(cIM, u1, uk, v) && MemoSound(cIM, gammaMap)
    ensures g == Gamma(cIM, u1, uk, v)
    ensures MemoSound(cIM, gammaMap') && gammaMap.Keys <= gammaMap'.Keys
  {
    var key := (u1, uk, v);
    if key in gammaMap {
      g := gammaMap[key];
      gammaMap' := gammaMap;
    } else {
      g := GammaOf(cIM, u1, uk, v);
      gammaMap' := gammaMap[key := g];
    }
  }

  /** r1, reading and filling the memo. */
  method R1Of(cIM: ClustIntersectInfoMatrix, u: nat, v: nat, gammaMap: map<(int, int, int), int>)
    returns (r1: int, gammaMap': map<(int, int, int), int>)
    requires Ready(cIM) && u < RootIndex(cIM.t1) && v < |cIM.t2.children| && MemoSound(cIM, gammaMap)
    ensures r1 == R1(cIM, u, v)
    ensures MemoSound(cIM, gammaMap')
  {
    var paU := cIM.t1.parent[u];
    var ch := cIM.t1.children[u];
    ChildrenBelowRoot(cIM, u);
    var sum := 0;
    gammaMap' := gammaMap;
    for i := 0 to |ch|
      invariant sum == ChildGammas(cIM, paU, ch[..i], v)
      invariant MemoSound(cIM, gammaMap')
    {
      Snoc(ch, i);
      var x := ch[i];
      if x.Int? {
        var g;
        g, gammaMap' := MemoGamma(cIM, paU, x.i, v, gammaMap');
        sum := sum + g;
      }
    }
    Whole(ch);
    var g;
    g, gammaMap' := MemoGamma(cIM, paU, u, v, gammaMap');
    r1 := g - sum;
  }

  /** The number of children of a node of t2; none for a leaf. */
  function ChildCount(t: Tree, v: NodeRef): nat
    requires IsNode(t, v)
  {
    match v
    case Ext(_) => 0
    case Int(i) => |t.children[i]|
  }

  /** What calcResolvedOnlyInT1 adds for (u, v): r1(u, v) when u is neither a leaf nor the
      root and v has more than two children, nothing otherwise. */
  function OnlyTerm(m: ClustIntersectInfoMatrix, u: NodeRef, v: NodeRef): int
    reads m, m.intCladeSize, m.intT1toLeafT2, m.intT2toLeafT1, m.cSize2
    requires Ready(m) && IsNode(m.t1, u) && IsNode(m.t2, v)
  {
    if u.Ext? || u.i == RootIndex(m.t1) || ChildCount(m.t2, v) <= 2 then 0
    else R1(m, u.i, v.i)
  }

  function OnlyRow(m: ClustIntersectInfoMatrix, u: NodeRef, vs: seq<NodeRef>): int
    reads m, m.intCladeSize, m.intT1toLeafT2, m.intT2toLeafT1, m.cSize2
    requires Ready(m) && IsNode(m.t1, u)
    requires forall q :: 0 <= q < |vs| ==> IsNode(m.t2, vs[q])
  {
    if vs == [] then 0
    else OnlyRow(m, u, vs[..|vs| - 1]) + OnlyTerm(m, u, vs[|vs| - 1])
  }

  function OnlySum(m: ClustIntersectInfoMatrix, us: seq<NodeRef>, vs: seq<NodeRef>): int
    reads m, m.intCladeSize, m.intT1toLeafT2, m.intT2toLeafT1, m.cSize2
    requires Ready(m)
    requires forall p :: 0 <= p < |us| ==> IsNode(m.t1, us[p])
    requires forall q :: 0 <= q < |vs| ==> IsNode(m.t2, vs[q])
  {
    if us == [] then 0
    else OnlySum(m, us[..|us| - 1], vs) + OnlyRow(m, us[|us| - 1], vs)
  }

  lemma OnlySumSnoc(m: ClustIntersectInfoMatrix, us: seq<NodeRef>, vs: seq<NodeRef>, i: nat)
    requires Ready(m) && i < |us|
    requires forall p :: 0 <= p < |us| ==> IsNode(m.t1, us[p])
    requires forall q :: 0 <= q < |vs| ==> IsNode(m.t2, vs[q])
    ensures OnlySum(m, us[..i + 1], vs) == OnlySum(m, us[..i], vs) + OnlyRow(m, us[i], vs)
  {
    assert us[..i + 1][..i] == us[..i];
  }

  lemma OnlyRowSnoc(m: ClustIntersectInfoMatrix, u: NodeRef, vs: seq<NodeRef>, j: nat)
    requires Ready(m) && IsNode(m.t1, u) && j < |vs|
    requires forall q :: 0 <= q < |vs| ==> IsNode(m.t2, vs[q])
    ensures OnlyRow(m, u, vs[..j + 1]) == OnlyRow(m, u, vs[..j]) + OnlyTerm(m, u, vs[j])
  {
    assert vs[..j + 1][..j] == vs[..j];
  }

  /** A leaf or the root of t1 adds nothing against any node of t2. */
  lemma {:induction false} OnlyRowZero(m: ClustIntersectInfoMatrix, u: NodeRef, vs: seq<NodeRef>)
    requires Ready(m) && IsNode(m.t1, u) && (u.Ext? || u.i == RootIndex(m.t1))
    requires forall q :: 0 <= q < |vs| ==> IsNode(m.t2, vs[q])
    ensures OnlyRow(m, u, vs) == 0
  {
    if vs != [] {
      OnlyRowZero(m, u, vs[..|vs| - 1]);
    }
  }

  /** calcResolvedOnlyInT1: the r1 terms summed over both walks; the memo never changes a value. */
  method CalcResolvedOnlyInT1(cIM: ClustIntersectInfoMatrix, postOrderT1: array<NodeRef>,
                              postOrderT2: array<NodeRef>) returns (R: int)
    requires Walks(cIM, postOrderT1, postOrderT2)
    ensures R == OnlySum(cIM, cIM.t1.post, cIM.t2.post)
  {
    var allT1Num := cIM.intT1Num + cIM.extT1Num;
    assert allT1Num == |cIM.t1.post|;
    var gammaMap: map<(int, int, int), int> := map[];
    R := 0;
    for i := 0 to allT1Num
      invariant R == OnlySum(cIM, cIM.t1.post[..i], cIM.t2.post)
      invariant MemoSound(cIM, gammaMap)
    {
      var uNode := postOrderT1[i];
      OnlySumSnoc(cIM, cIM.t1.post, cIM.t2.post, i);
      var r;
      r, gammaMap := OnlyStep(cIM, uNode, postOrderT2, gammaMap);
      R := R + r;
    }
    Whole(cIM.t1.post);
  }

  /** The body of the outer loop: leaves and the root are skipped. */
  method OnlyStep(cIM: ClustIntersectInfoMatrix, uNode: NodeRef, postOrderT2: array<NodeRef>,
                  gammaMap: map<(int, int, int), int>) returns (R: int, gammaMap': map<(int, int, int), int>)
    requires Ready(cIM) && IsNode(cIM.t1, uNode) && ValidPost(cIM.t2) && postOrderT2[..] == cIM.t2.post
    requires MemoSound(cIM, gammaMap)
    ensures R == OnlyRow(cIM, uNode, cIM.t2.post)
    ensures MemoSound(cIM, gammaMap')
  {
    if uNode.Ext? || uNode.i == RootIndex(cIM.t1) {
      OnlyRowZero(cIM, uNode, cIM.t2.post);
      return 0, gammaMap;
    }
    R, gammaMap' := OnlyRowOf(cIM, uNode.i, postOrderT2, gammaMap);
  }

  /** The inner loop of calcResolvedOnlyInT1, over the nodes v of t2. */
  method OnlyRowOf(cIM: ClustIntersectInfoMatrix, u: nat, postOrderT2: array<NodeRef>,
                   gammaMap: map<(int, int, int), int>) returns (R: int, gammaMap': map<(int, int, int), int>)
    requires Ready(cIM) && u < RootIndex(cIM.t1) && ValidPost(cIM.t2) && postOrderT2[..] == cIM.t2.post
    requires MemoSound(cIM, gammaMap)
    ensures R == OnlyRow(cIM, Int(u), cIM.t2.post)
    ensures MemoSound(cIM, gammaMap')
  {
    var allT2Num := cIM.intT2Num + cIM.extT2Num;
    assert allT2Num == |cIM.t2.post|;
    R := 0;
    gammaMap' := gammaMap;
    for j := 0 to allT2Num
      invariant R == OnlyRow(cIM, Int(u), cIM.t2.post[..j])
      invariant MemoSound(cIM, gammaMap')
    {
      var vNode := postOrderT2[j];
      var r;
      r, gammaMap' := OnlyTermOf(cIM, u, vNode, gammaMap');
      OnlyRowSnoc(cIM, Int(u), cIM.t2.post, j);
      R := R + r;
    }
    Whole(cIM.t2.post);
  }

  /** The body of the inner loop: r1 when v has more than two children. */
  method OnlyTermOf(cIM: ClustIntersectInfoMatrix, u: nat, vNode: NodeRef, gammaMap: map<(int, int, int), int>)
    returns (r: int, gammaMap': map<(int, int, int), int>)
    requires Ready(cIM) && u < RootIndex(cIM.t1) && IsNode(cIM.t2, vNode) && MemoSound(cIM, gammaMap)
    ensures r == OnlyTerm(cIM, Int(u), vNode)
    ensures MemoSound(cIM, gammaMap')
  {
    if ChildCount(cIM.t2, vNode) <= 2 {
      return 0, gammaMap;
    }
    r, gammaMap' := R1Of(cIM, u, vNode.i, gammaMap);
  }
}
