/**
 * TreeCmpUtils.calcLcaMatrix and calcNodalSplittedMatrix: for every pair of
 * leaf ids, the lowest common ancestor, and each leaf's distance to it.
 *
 * Both walk the tree in post-order and keep, for every internal node, one list
 * of leaf entries per child (TCUtilsNode, TCUtilsNodeEx); then, for each
 * internal node in numeric order, every pair of entries that lie in two
 * different child lists gets its matrix cells written.  A later node overwrites
 * an earlier one, so a cell ends up holding the last node that separates the
 * pair.
 */
module TreeCmpUtilsLca {
  import opened PalTree

  // ---------------------------------------------------------------------------
  // TCUtilsNode

  /** TCUtilsNode: the ids of the leaves below an internal node, one list per child. */
  datatype UtilsNode = UtilsNode(leafSets: seq<seq<int>>)

  /** All the entries of a list of lists, in order. */
  function Concat<T(!new)>(ls: seq<seq<T>>): (r: seq<T>)
    ensures forall x :: x in r <==> exists k :: 0 <= k < |ls| && x in ls[k]
  {
    if ls == [] then []
    else
      var front := Concat(ls[..|ls| - 1]);
      assert forall k :: 0 <= k < |ls| - 1 ==> ls[..|ls| - 1][k] == ls[k];
      front + ls[|ls| - 1]
  }

  /** TCUtilsNode.add: appends one list holding every id of the child's lists. */
  function Add(n: UtilsNode, node: UtilsNode): (r: UtilsNode)
    ensures |r.leafSets| == |n.leafSets| + 1 && r.leafSets[..|n.leafSets|] == n.leafSets
    ensures forall x :: x in r.leafSets[|n.leafSets|] <==> exists k :: 0 <= k < |node.leafSets| && x in node.leafSets[k]
  {
    UtilsNode(n.leafSets + [Concat(node.leafSets)])
  }

  /** TCUtilsNode.addLeaf: appends a one-element list. */
  function AddLeaf(n: UtilsNode, leaf: int): (r: UtilsNode)
    ensures |r.leafSets| == |n.leafSets| + 1 && r.leafSets[..|n.leafSets|] == n.leafSets
    ensures r.leafSets[|n.leafSets|] == [leaf]
  {
    UtilsNode(n.leafSets + [[leaf]])
  }

  /** The list a node keeps for its child c: c's id for a leaf, every id below c otherwise. */
  function GroupOf(g: IdGroup, t: Tree, c: NodeRef): seq<int>
    requires Shaped(t) && IsNode(t, c)
    decreases Rank(c), 2
  {
    match c
    case Ext(l) => [IdOf(g, t.names[l])]
    case Int(j) => Concat(InfoOf(g, t, j).leafSets)
  }

  /** The TCUtilsNode the post-order pass builds for internal node i. */
  function InfoOf(g: IdGroup, t: Tree, i: nat): (r: UtilsNode)
    requires Shaped(t) && i < |t.children|
    ensures |r.leafSets| == |t.children[i]|
    decreases i + 1, 1
  {
    UtilsNode(GroupsOf(g, t, t.children[i], i))
  }

  function GroupsOf(g: IdGroup, t: Tree, cs: seq<NodeRef>, owner: nat): (r: seq<seq<int>>)
    requires Shaped(t) && owner < |t.children|
    requires forall k :: 0 <= k < |cs| ==> ChildOk(t, owner, cs[k])
    ensures |r| == |cs|
    decreases owner + 1, 0, |cs|
  {
    if cs == [] then []
    else
      var c := cs[|cs| - 1];
      assert ChildOk(t, owner, c);
      GroupsOf(g, t, cs[..|cs| - 1], owner) + [GroupOf(g, t, c)]
  }

  lemma {:induction false} GroupsOfIndex(g: IdGroup, t: Tree, cs: seq<NodeRef>, owner: nat)
    requires Shaped(t) && owner < |t.children|
    requires forall k :: 0 <= k < |cs| ==> ChildOk(t, owner, cs[k])
    ensures |GroupsOf(g, t, cs, owner)| == |cs|
    ensures forall k :: 0 <= k < |cs| ==> IsNode(t, cs[k]) && GroupsOf(g, t, cs, owner)[k] == GroupOf(g, t, cs[k])
    decreases |cs|
  {
    if cs != [] {
      GroupsOfIndex(g, t, cs[..|cs| - 1], owner);
      assert forall k :: 0 <= k < |cs| - 1 ==> cs[..|cs| - 1][k] == cs[k];
      assert ChildOk(t, owner, cs[|cs| - 1]);
    }
  }

  /** The list kept for child c holds exactly c's cluster. */
  lemma {:induction false} GroupMembers(g: IdGroup, t: Tree, c: NodeRef, x: int)
    requires Shaped(t) && IsNode(t, c)
    ensures x in GroupOf(g, t, c) <==> x in Cluster(g, t, c)
    decreases Rank(c)
  {
    match c
    case Ext(l) =>
    case Int(j) =>
      var ch := t.children[j];
      GroupsOfIndex(g, t, ch, j);
      ClusterOfListHas(g, t, ch, j, x);
      forall k | 0 <= k < |ch|
        ensures x in GroupOf(g, t, ch[k]) <==> x in Cluster(g, t, ch[k])
      {
        assert ChildOk(t, j, ch[k]);
        GroupMembers(g, t, ch[k], x);
      }
  }

  /** In a tree under a covering id group, the lists of two children of one node share no id. */
  lemma GroupsDisjoint(g: IdGroup, t: Tree, i: nat, a: nat, b: nat)
    requires Valid(t) && Covers(g, t)
    requires i < |t.children| && a < |t.children[i]| && b < |t.children[i]| && a != b
    ensures forall x :: x in InfoOf(g, t, i).leafSets[a] ==> x !in InfoOf(g, t, i).leafSets[b]
  {
    var ch := t.children[i];
    GroupsOfIndex(g, t, ch, i);
    forall x | x in InfoOf(g, t, i).leafSets[a]
      ensures x !in InfoOf(g, t, i).leafSets[b]
    {
      GroupMembers(g, t, ch[a], x);
      GroupMembers(g, t, ch[b], x);
      if a < b {
        ClusterChildrenDisjoint(g, t, i, a, b);
      } else {
        ClusterChildrenDisjoint(g, t, i, b, a);
      }
    }
  }

  /** Every id in a node's lists is a position of the id group. */
  lemma GroupsInRange(g: IdGroup, t: Tree, i: nat, a: nat)
    requires Shaped(t) && Covers(g, t)
    requires i < |t.children| && a < |t.children[i]|
    ensures forall x :: x in InfoOf(g, t, i).leafSets[a] ==> 0 <= x < |g|
  {
    var ch := t.children[i];
    GroupsOfIndex(g, t, ch, i);
    forall x | x in InfoOf(g, t, i).leafSets[a]
      ensures 0 <= x < |g|
    {
      GroupMembers(g, t, ch[a], x);
      ClusterMember(g, t, ch[a], x);
      var l :| l in Leaves(t, ch[a]) && IdOf(g, t.names[l]) == x;
      AliasInRange(g, t, l);
    }
  }

  /** The first loop of calcLcaMatrix: one TCUtilsNode per internal node, built in post-order. */
  method BuildNodeInfo(t: Tree, g: IdGroup) returns (nodeInfoTab: array<UtilsNode>)
    requires Valid(t)
    ensures nodeInfoTab.Length == |t.children|
    ensures forall a :: 0 <= a < |t.children| ==> nodeInfoTab[a] == InfoOf(g, t, a)
  {
    var alias := Alias(g, t);
    nodeInfoTab := new UtilsNode[|t.children|](_ => UtilsNode([]));
    for p := 0 to |t.post|
      invariant forall a :: 0 <= a < |t.children| && Int(a) in t.post[..p] ==> nodeInfoTab[a] == InfoOf(g, t, a)
    {
      var curNode := t.post[p];
      Snoc(t.post, p);
      if curNode.Ext? {
        continue;
      }
      var node := NodeInfoAt(t, g, alias, p, nodeInfoTab);
      nodeInfoTab[curNode.i] := node;
    }
    Whole(t.post);
  }

  /** The inner loop of the first pass: the lists of the node at post-order position p. */
  method NodeInfoAt(t: Tree, g: IdGroup, alias: seq<int>, p: nat, nodeInfoTab: array<UtilsNode>) returns (node: UtilsNode)
    requires Valid(t) && alias == Alias(g, t) && p < |t.post| && t.post[p].Int?
    requires nodeInfoTab.Length == |t.children|
    requires forall a :: 0 <= a < |t.children| && Int(a) in t.post[..p] ==> nodeInfoTab[a] == InfoOf(g, t, a)
    ensures node == InfoOf(g, t, t.post[p].i)
  {
    var nodeIndex := t.post[p].i;
    var ch := t.children[nodeIndex];
    assert ChildrenBefore(t, p);
    node := UtilsNode([]);
    for k := 0 to |ch|
      invariant node.leafSets == GroupsOf(g, t, ch[..k], nodeIndex)
    {
      var childNode := ch[k];
      assert childNode in t.post[..p];
      assert ChildOk(t, nodeIndex, childNode);
      if childNode.Ext? {
        node := AddLeaf(node, alias[childNode.i]);
      } else {
        node := Add(node, nodeInfoTab[childNode.i]);
      }
      Snoc(ch, k);
    }
    Whole(ch);
  }

  // ---------------------------------------------------------------------------
  // The second pass: write every pair of entries from two different lists

  /** y lies in one of the lists L[lo], ..., L[hi - 1]. */
  predicate InGroups(L: seq<seq<int>>, lo: nat, hi: nat, y: int)
    requires hi <= |L|
    decreases hi
  {
    hi > lo && (y in L[hi - 1] || InGroups(L, lo, hi - 1, y))
  }

  /** The pairs the passes over lists 0 .. j-1 write: one entry in a list before j, the other in a later list. */
  predicate Passed(L: seq<seq<int>>, j: nat, x: int, y: int)
    requires j <= |L|
  {
    j > 0 && (Passed(L, j - 1, x, y) || (x in L[j - 1] && InGroups(L, j, |L|, y)) || (y in L[j - 1] && InGroups(L, j, |L|, x)))
  }

  /** x and y lie in two different lists of the node. */
  predicate Separates(L: seq<seq<int>>, x: int, y: int)
  {
    Passed(L, |L|, x, y)
  }

  lemma {:induction false} InGroupsMeaning(L: seq<seq<int>>, lo: nat, hi: nat, y: int)
    requires hi <= |L|
    ensures InGroups(L, lo, hi, y) <==> exists k :: lo <= k < hi && y in L[k]
    decreases hi
  {
    if hi > lo {
      InGroupsMeaning(L, lo, hi - 1, y);
    }
  }

  lemma {:induction false} PassedMeaning(L: seq<seq<int>>, j: nat, x: int, y: int)
    requires j <= |L|
    ensures Passed(L, j, x, y) <==>
      exists a, b :: 0 <= a < j && a < b < |L| && ((x in L[a] && y in L[b]) || (y in L[a] && x in L[b]))
  {
    if j > 0 {
      PassedMeaning(L, j - 1, x, y);
      InGroupsMeaning(L, j, |L|, y);
      InGroupsMeaning(L, j, |L|, x);
    }
  }

  /** A node separates x and y exactly when they lie in two different child lists. */
  lemma SeparatesMeaning(L: seq<seq<int>>, x: int, y: int)
    ensures Separates(L, x, y) <==>
      exists a, b :: 0 <= a < |L| && 0 <= b < |L| && a != b && x in L[a] && y in L[b]
  {
    PassedMeaning(L, |L|, x, y);
    if a, b :| 0 <= a < |L| && 0 <= b < |L| && a != b && x in L[a] && y in L[b] {
      if a < b {
        assert 0 <= a < |L| && a < b < |L| && x in L[a] && y in L[b];
      } else {
        assert 0 <= b < |L| && b < a < |L| && y in L[b] && x in L[a];
      }
    }
  }

  /** Every entry of the lists is below n. */
  predicate InRange(L: seq<seq<int>>, n: int)
  {
    forall k, y :: 0 <= k < |L| && y in L[k] ==> 0 <= y < n
  }

  /** The lca matrix after the nodes 0 .. n-1 have been processed: the last node that
      separates x and y, else the initial -1 on the diagonal and 0 elsewhere. */
  function LcaSpec(g: IdGroup, t: Tree, n: nat, x: int, y: int): int
    requires Shaped(t) && n <= |t.children|
  {
    if n == 0 then (if x == y then -1 else 0)
    else if Separates(InfoOf(g, t, n - 1).leafSets, x, y) then n - 1
    else LcaSpec(g, t, n - 1, x, y)
  }

  /** The innermost loops: entry i1 against every entry of one later list. */
  method MarkPairs(lca: array2<int>, i: int, i1: int, second: seq<int>)
    requires 0 <= i1 < lca.Length0 && lca.Length1 == lca.Length0
    requires forall y :: y in second ==> 0 <= y < lca.Length0
    modifies lca
    ensures forall x, y :: 0 <= x < lca.Length0 && 0 <= y < lca.Length1 ==>
      lca[x, y] == if (x == i1 && y in second) || (y == i1 && x in second) then i else old(lca[x, y])
  {
    for m := 0 to |second|
      invariant forall x, y :: 0 <= x < lca.Length0 && 0 <= y < lca.Length1 ==>
        lca[x, y] == if (x == i1 && y in second[..m]) || (y == i1 && x in second[..m]) then i else old(lca[x, y])
    {
      var i2 := second[m];
      assert i2 in second;
      Snoc(second, m);
      lca[i1, i2] := i;
      lca[i2, i1] := i;
    }
    Whole(second);
  }

  /** Entry i1 of list j against every entry of the lists after j. */
  method MarkAgainst(lca: array2<int>, i: int, i1: int, L: seq<seq<int>>, j: nat)
    requires 0 <= i1 < lca.Length0 && lca.Length1 == lca.Length0
    requires j < |L| && InRange(L, lca.Length0)
    modifies lca
    ensures forall x, y :: 0 <= x < lca.Length0 && 0 <= y < lca.Length1 ==>
      lca[x, y] == if (x == i1 && InGroups(L, j + 1, |L|, y)) || (y == i1 && InGroups(L, j + 1, |L|, x)) then i else old(lca[x, y])
  {
    for k := j + 1 to |L|
      invariant forall x, y :: 0 <= x < lca.Length0 && 0 <= y < lca.Length1 ==>
        lca[x, y] == if (x == i1 && InGroups(L, j + 1, k, y)) || (y == i1 && InGroups(L, j + 1, k, x)) then i else old(lca[x, y])
    {
      MarkPairs(lca, i, i1, L[k]);
    }
  }

  /** Every entry of list j against every entry of the lists after j. */
  method MarkGroup(lca: array2<int>, i: int, L: seq<seq<int>>, j: nat)
    requires lca.Length1 == lca.Length0
    requires j < |L| && InRange(L, lca.Length0)
    modifies lca
    ensures forall x, y :: 0 <= x < lca.Length0 && 0 <= y < lca.Length1 ==>
      lca[x, y] == if (x in L[j] && InGroups(L, j + 1, |L|, y)) || (y in L[j] && InGroups(L, j + 1, |L|, x)) then i else old(lca[x, y])
  {
    var baseList := L[j];
    for m := 0 to |baseList|
      invariant forall x, y :: 0 <= x < lca.Length0 && 0 <= y < lca.Length1 ==>
        lca[x, y] == if (x in baseList[..m] && InGroups(L, j + 1, |L|, y)) || (y in baseList[..m] && InGroups(L, j + 1, |L|, x)) then i else old(lca[x, y])
    {
      Snoc(baseList, m);
      assert baseList[m] in L[j];
      MarkAgainst(lca, i, baseList[m], L, j);
    }
    Whole(baseList);
  }

  /** The pass over one internal node: every cell of a pair it separates gets the node's number. */
  method MarkNode(lca: array2<int>, i: int, L: seq<seq<int>>)
    requires lca.Length1 == lca.Length0 && InRange(L, lca.Length0)
    modifies lca
    ensures forall x, y :: 0 <= x < lca.Length0 && 0 <= y < lca.Length1 ==>
      lca[x, y] == if Separates(L, x, y) then i else old(lca[x, y])
  {
    var j := 0;
    while j < |L| - 1
      invariant 0 <= j <= |L|
      invariant |L| > 0 ==> j <= |L| - 1
      invariant forall x, y :: 0 <= x < lca.Length0 && 0 <= y < lca.Length1 ==>
        lca[x, y] == if Passed(L, j, x, y) then i else old(lca[x, y])
    {
      MarkGroup(lca, i, L, j);
      j := j + 1;
    }
  }

  lemma {:induction false} LcaSymmetric(g: IdGroup, t: Tree, n: nat, x: int, y: int)
    requires Shaped(t) && n <= |t.children|
    ensures LcaSpec(g, t, n, x, y) == LcaSpec(g, t, n, y, x)
  {
    if n > 0 {
      var L := InfoOf(g, t, n - 1).leafSets;
      SeparatesMeaning(L, x, y);
      SeparatesMeaning(L, y, x);
      LcaSymmetric(g, t, n - 1, x, y);
    }
  }

  /** No node separates an id from itself, so the diagonal keeps its -1. */
  lemma {:induction false} LcaDiagonal(g: IdGroup, t: Tree, n: nat, x: int)
    requires Valid(t) && Covers(g, t) && n <= |t.children|
    ensures LcaSpec(g, t, n, x, x) == -1
  {
    if n > 0 {
      var L := InfoOf(g, t, n - 1).leafSets;
      SeparatesMeaning(L, x, x);
      if a, b :| 0 <= a < |L| && 0 <= b < |L| && a != b && x in L[a] && x in L[b] {
        GroupsDisjoint(g, t, n - 1, a, b);
        assert false;
      }
      LcaDiagonal(g, t, n - 1, x);
    }
  }

  lemma NodeInRange(g: IdGroup, t: Tree, i: nat)
    requires Shaped(t) && Covers(g, t) && i < |t.children|
    ensures InRange(InfoOf(g, t, i).leafSets, |g|)
  {
    forall k | 0 <= k < |t.children[i]|
      ensures forall y :: y in InfoOf(g, t, i).leafSets[k] ==> 0 <= y < |g|
    {
      GroupsInRange(g, t, i, k);
    }
  }

  /** What calcLcaMatrix needs: a tree, and its own leaf names as the id group. */
  predicate LcaReady(t: Tree, g: IdGroup)
  {
    Valid(t) && Covers(g, t) && |g| == |t.names|
  }

  /** calcLcaMatrix: a leafNum x leafNum matrix, -1 on the diagonal, symmetric, and each
      off-diagonal cell the last internal node whose child lists separate the two ids. */
  method CalcLcaMatrix(t: Tree, g: IdGroup) returns (lcaMatrix: array2<int>)
    requires LcaReady(t, g)
    ensures lcaMatrix.Length0 == |t.names| && lcaMatrix.Length1 == |t.names|
    ensures forall x, y :: 0 <= x < |t.names| && 0 <= y < |t.names| ==>
      lcaMatrix[x, y] == LcaSpec(g, t, |t.children|, x, y)
    ensures forall x :: 0 <= x < |t.names| ==> lcaMatrix[x, x] == -1
    ensures forall x, y :: 0 <= x < |t.names| && 0 <= y < |t.names| ==> lcaMatrix[x, y] == lcaMatrix[y, x]
  {
    var leafNum := |t.names|;
    var intNum := |t.children|;
    lcaMatrix := new int[leafNum, leafNum]((x, y) => 0);
    for i := 0 to leafNum
      invariant forall x, y :: 0 <= x < leafNum && 0 <= y < leafNum ==>
        lcaMatrix[x, y] == if x == y && x < i then -1 else 0
    {
      lcaMatrix[i, i] := -1;
    }
    var nodeInfoTab := BuildNodeInfo(t, g);
    for i := 0 to intNum
      modifies lcaMatrix
      invariant forall x, y :: 0 <= x < leafNum && 0 <= y < leafNum ==>
        lcaMatrix[x, y] == LcaSpec(g, t, i, x, y)
    {
      var leafSet := nodeInfoTab[i].leafSets;
      NodeInRange(g, t, i);
      MarkNode(lcaMatrix, i, leafSet);
    }
    forall x, y | 0 <= x < leafNum && 0 <= y < leafNum
      ensures lcaMatrix[x, y] == lcaMatrix[y, x]
    {
      LcaSymmetric(g, t, intNum, x, y);
    }
    forall x | 0 <= x < leafNum
      ensures lcaMatrix[x, x] == -1
    {
      LcaDiagonal(g, t, intNum, x);
    }
  }

  // ---------------------------------------------------------------------------
  // The matrix entry is the lowest common ancestor

  /** Internal node r has two different children, one above leaf l and one above leaf m. */
  predicate SplitsLeaves(t: Tree, r: nat, l: nat, m: nat)
    requires Shaped(t) && r < |t.children|
  {
    exists a, b :: 0 <= a < |t.children[r]| && 0 <= b < |t.children[r]| && a != b &&
      l in Leaves(t, t.children[r][a]) && m in Leaves(t, t.children[r][b])
  }

  lemma SplitSeparates(g: IdGroup, t: Tree, r: nat, l: nat, m: nat)
    requires Shaped(t) && r < |t.children| && SplitsLeaves(t, r, l, m)
    ensures l < |t.names| && m < |t.names|
    ensures Separates(InfoOf(g, t, r).leafSets, IdOf(g, t.names[l]), IdOf(g, t.names[m]))
  {
    var ch := t.children[r];
    var a, b :| 0 <= a < |ch| && 0 <= b < |ch| && a != b && l in Leaves(t, ch[a]) && m in Leaves(t, ch[b]);
    GroupsOfIndex(g, t, ch, r);
    var idl, idm := IdOf(g, t.names[l]), IdOf(g, t.names[m]);
    ClusterMember(g, t, ch[a], idl);
    ClusterMember(g, t, ch[b], idm);
    GroupMembers(g, t, ch[a], idl);
    GroupMembers(g, t, ch[b], idm);
    SeparatesMeaning(InfoOf(g, t, r).leafSets, idl, idm);
  }

  lemma SeparatesSplit(g: IdGroup, t: Tree, r: nat, l: nat, m: nat)
    requires Shaped(t) && Covers(g, t) && r < |t.children| && l < |t.names| && m < |t.names|
    requires Separates(InfoOf(g, t, r).leafSets, IdOf(g, t.names[l]), IdOf(g, t.names[m]))
    ensures SplitsLeaves(t, r, l, m)
  {
    var ch := t.children[r];
    var L := InfoOf(g, t, r).leafSets;
    var idl, idm := IdOf(g, t.names[l]), IdOf(g, t.names[m]);
    SeparatesMeaning(L, idl, idm);
    var a, b :| 0 <= a < |L| && 0 <= b < |L| && a != b && idl in L[a] && idm in L[b];
    GroupsOfIndex(g, t, ch, r);
    GroupMembers(g, t, ch[a], idl);
    GroupMembers(g, t, ch[b], idm);
    ClusterMember(g, t, ch[a], idl);
    ClusterMember(g, t, ch[b], idm);
    var l' :| l' in Leaves(t, ch[a]) && IdOf(g, t.names[l']) == idl;
    var m' :| m' in Leaves(t, ch[b]) && IdOf(g, t.names[m']) == idm;
    if l' != l {
      AliasInjective(g, t, l', l);
    }
    if m' != m {
      AliasInjective(g, t, m', m);
    }
  }

  /** Two different leaves below internal node i are split by i or by a node below it. */
  lemma {:induction false} SomeSplit(t: Tree, i: nat, l: nat, m: nat)
    requires Shaped(t) && i < |t.children| && l != m
    requires l in Leaves(t, Int(i)) && m in Leaves(t, Int(i))
    ensures exists r :: 0 <= r <= i && SplitsLeaves(t, r, l, m)
    decreases i
  {
    var ch := t.children[i];
    LeavesOfListHas(t, ch, i, l);
    LeavesOfListHas(t, ch, i, m);
    var a :| 0 <= a < |ch| && l in Leaves(t, ch[a]);
    var b :| 0 <= b < |ch| && m in Leaves(t, ch[b]);
    if a != b {
      assert SplitsLeaves(t, i, l, m);
    } else {
      assert ChildOk(t, i, ch[a]);
      match ch[a]
      case Ext(_) =>
      case Int(j) =>
        SomeSplit(t, j, l, m);
    }
  }

  lemma {:induction false} LcaFindsSplit(g: IdGroup, t: Tree, n: nat, l: nat, m: nat)
    requires Shaped(t) && Covers(g, t) && n <= |t.children| && l < |t.names| && m < |t.names|
    requires exists r :: 0 <= r < n && SplitsLeaves(t, r, l, m)
    ensures var r := LcaSpec(g, t, n, IdOf(g, t.names[l]), IdOf(g, t.names[m]));
      0 <= r < n && SplitsLeaves(t, r, l, m)
  {
    var idl, idm := IdOf(g, t.names[l]), IdOf(g, t.names[m]);
    if Separates(InfoOf(g, t, n - 1).leafSets, idl, idm) {
      SeparatesSplit(g, t, n - 1, l, m);
    } else {
      var r :| 0 <= r < n && SplitsLeaves(t, r, l, m);
      if r == n - 1 {
        SplitSeparates(g, t, r, l, m);
      }
      LcaFindsSplit(g, t, n - 1, l, m);
    }
  }

  /** For two different leaves, the calcLcaMatrix entry is an internal node with the two
      leaves below two different children: their lowest common ancestor. */
  lemma LcaOfLeaves(g: IdGroup, t: Tree, l: nat, m: nat)
    requires LcaReady(t, g) && l < |t.names| && m < |t.names| && l != m
    ensures var r := LcaSpec(g, t, |t.children|, IdOf(g, t.names[l]), IdOf(g, t.names[m]));
      0 <= r < |t.children| && SplitsLeaves(t, r, l, m)
  {
    SomeSplit(t, RootIndex(t), l, m);
    LcaFindsSplit(g, t, |t.children|, l, m);
  }

  // ---------------------------------------------------------------------------
  // TCUtilsNodeEx and calcNodalSplittedMatrix

  /** NodeExInfo: a leaf id and its number of edges up to the node that holds the entry. */
  datatype NodeExInfo = NodeExInfo(leafId: int, dist: int)

  /** TCUtilsNodeEx: the entries below an internal node, one list per child. */
  datatype UtilsNodeEx = UtilsNodeEx(leafSets: seq<seq<NodeExInfo>>)

  function Ids(es: seq<NodeExInfo>): (r: seq<int>)
    ensures |r| == |es| && forall k :: 0 <= k < |es| ==> r[k] == es[k].leafId
  {
    seq(|es|, k requires 0 <= k < |es| => es[k].leafId)
  }

  function IdsOf(L: seq<seq<NodeExInfo>>): (r: seq<seq<int>>)
    ensures |r| == |L| && forall k :: 0 <= k < |L| ==> r[k] == Ids(L[k])
  {
    seq(|L|, k requires 0 <= k < |L| => Ids(L[k]))
  }

  /** The entries one level further up: the same ids, one more edge each. */
  function Lift(es: seq<NodeExInfo>): (r: seq<NodeExInfo>)
    ensures Ids(r) == Ids(es)
    ensures forall k :: 0 <= k < |es| ==> r[k].dist == es[k].dist + 1
  {
    seq(|es|, k requires 0 <= k < |es| => NodeExInfo(es[k].leafId, es[k].dist + 1))
  }

  /** TCUtilsNodeEx.add: appends one list with every entry of the child, one edge further away. */
  function AddEx(n: UtilsNodeEx, node: UtilsNodeEx): (r: UtilsNodeEx)
    ensures |r.leafSets| == |n.leafSets| + 1 && r.leafSets[..|n.leafSets|] == n.leafSets
    ensures Ids(r.leafSets[|n.leafSets|]) == Ids(Concat(node.leafSets))
    ensures forall k :: 0 <= k < |Concat(node.leafSets)| ==>
      r.leafSets[|n.leafSets|][k].dist == Concat(node.leafSets)[k].dist + 1
  {
    UtilsNodeEx(n.leafSets + [Lift(Concat(node.leafSets))])
  }

  /** TCUtilsNodeEx.addLeaf: appends a list holding the leaf at distance 1. */
  function AddLeafEx(n: UtilsNodeEx, leaf: int): (r: UtilsNodeEx)
    ensures |r.leafSets| == |n.leafSets| + 1 && r.leafSets[..|n.leafSets|] == n.leafSets
    ensures r.leafSets[|n.leafSets|] == [NodeExInfo(leaf, 1)]
  {
    UtilsNodeEx(n.leafSets + [[NodeExInfo(leaf, 1)]])
  }

  function GroupOfEx(g: IdGroup, t: Tree, c: NodeRef): seq<NodeExInfo>
    requires Shaped(t) && IsNode(t, c)
    decreases Rank(c), 2
  {
    match c
    case Ext(l) => [NodeExInfo(IdOf(g, t.names[l]), 1)]
    case Int(j) => Lift(Concat(InfoOfEx(g, t, j).leafSets))
  }

  /** The TCUtilsNodeEx the post-order pass builds for internal node i. */
  function InfoOfEx(g: IdGroup, t: Tree, i: nat): (r: UtilsNodeEx)
    requires Shaped(t) && i < |t.children|
    ensures |r.leafSets| == |t.children[i]|
    decreases i + 1, 1
  {
    UtilsNodeEx(GroupsOfEx(g, t, t.children[i], i))
  }

  function GroupsOfEx(g: IdGroup, t: Tree, cs: seq<NodeRef>, owner: nat): (r: seq<seq<NodeExInfo>>)
    requires Shaped(t) && owner < |t.children|
    requires forall k :: 0 <= k < |cs| ==> ChildOk(t, owner, cs[k])
    ensures |r| == |cs|
    decreases owner + 1, 0, |cs|
  {
    if cs == [] then []
    else
      var c := cs[|cs| - 1];
      assert ChildOk(t, owner, c);
      GroupsOfEx(g, t, cs[..|cs| - 1], owner) + [GroupOfEx(g, t, c)]
  }

  lemma {:induction false} IdsConcat(L: seq<seq<NodeExInfo>>)
    ensures Ids(Concat(L)) == Concat(IdsOf(L))
  {
    if L != [] {
      IdsConcat(L[..|L| - 1]);
      assert IdsOf(L[..|L| - 1]) == IdsOf(L)[..|L| - 1];
      IdsAppend(Concat(L[..|L| - 1]), L[|L| - 1]);
    }
  }

  lemma IdsAppend(a: seq<NodeExInfo>, b: seq<NodeExInfo>)
    ensures Ids(a + b) == Ids(a) + Ids(b)
  {
  }

  /** The entries of TCUtilsNodeEx carry exactly the ids of TCUtilsNode. */
  lemma {:induction false} GroupIds(g: IdGroup, t: Tree, c: NodeRef)
    requires Shaped(t) && IsNode(t, c)
    ensures Ids(GroupOfEx(g, t, c)) == GroupOf(g, t, c)
    decreases Rank(c), 2
  {
    match c
    case Ext(l) =>
    case Int(j) =>
      InfoIds(g, t, j);
      IdsConcat(InfoOfEx(g, t, j).leafSets);
  }

  lemma {:induction false} InfoIds(g: IdGroup, t: Tree, i: nat)
    requires Shaped(t) && i < |t.children|
    ensures IdsOf(InfoOfEx(g, t, i).leafSets) == InfoOf(g, t, i).leafSets
    decreases i + 1, 1
  {
    GroupsIds(g, t, t.children[i], i);
  }

  lemma {:induction false} GroupsIds(g: IdGroup, t: Tree, cs: seq<NodeRef>, owner: nat)
    requires Shaped(t) && owner < |t.children|
    requires forall k :: 0 <= k < |cs| ==> ChildOk(t, owner, cs[k])
    ensures IdsOf(GroupsOfEx(g, t, cs, owner)) == GroupsOf(g, t, cs, owner)
    decreases owner + 1, 0, |cs|
  {
    if cs != [] {
      var c := cs[|cs| - 1];
      assert ChildOk(t, owner, c);
      GroupsIds(g, t, cs[..|cs| - 1], owner);
      GroupIds(g, t, c);
      var front := GroupsOfEx(g, t, cs[..|cs| - 1], owner);
      assert GroupsOfEx(g, t, cs, owner) == front + [GroupOfEx(g, t, c)];
      assert IdsOf(front + [GroupOfEx(g, t, c)]) == IdsOf(front) + [Ids(GroupOfEx(g, t, c))];
    }
  }

  /** The first loop of calcNodalSplittedMatrix: one TCUtilsNodeEx per internal node, built in post-order. */
  method BuildNodeInfoEx(t: Tree, g: IdGroup) returns (nodeInfoTab: array<UtilsNodeEx>)
    requires Valid(t)
    ensures nodeInfoTab.Length == |t.children|
    ensures forall a :: 0 <= a < |t.children| ==> nodeInfoTab[a] == InfoOfEx(g, t, a)
  {
    var alias := Alias(g, t);
    nodeInfoTab := new UtilsNodeEx[|t.children|](_ => UtilsNodeEx([]));
    for p := 0 to |t.post|
      invariant forall a :: 0 <= a < |t.children| && Int(a) in t.post[..p] ==> nodeInfoTab[a] == InfoOfEx(g, t, a)
    {
      var curNode := t.post[p];
      Snoc(t.post, p);
      if curNode.Ext? {
        continue;
      }
      var node := NodeInfoExAt(t, g, alias, p, nodeInfoTab);
      nodeInfoTab[curNode.i] := node;
    }
    Whole(t.post);
  }

  method NodeInfoExAt(t: Tree, g: IdGroup, alias: seq<int>, p: nat, nodeInfoTab: array<UtilsNodeEx>) returns (node: UtilsNodeEx)
    requires Valid(t) && alias == Alias(g, t) && p < |t.post| && t.post[p].Int?
    requires nodeInfoTab.Length == |t.children|
    requires forall a :: 0 <= a < |t.children| && Int(a) in t.post[..p] ==> nodeInfoTab[a] == InfoOfEx(g, t, a)
    ensures node == InfoOfEx(g, t, t.post[p].i)
  {
    var nodeIndex := t.post[p].i;
    var ch := t.children[nodeIndex];
    assert ChildrenBefore(t, p);
    node := UtilsNodeEx([]);
    for k := 0 to |ch|
      invariant node.leafSets == GroupsOfEx(g, t, ch[..k], nodeIndex)
    {
      var childNode := ch[k];
      assert childNode in t.post[..p];
      assert ChildOk(t, nodeIndex, childNode);
      if childNode.Ext? {
        node := AddLeafEx(node, alias[childNode.i]);
      } else {
        node := AddEx(node, nodeInfoTab[childNode.i]);
      }
      Snoc(ch, k);
    }
    Whole(ch);
  }

  /** The distance of the last entry for x in a list (0 when there is none). */
  function LastDist(es: seq<NodeExInfo>, x: int): int
  {
    if es == [] then 0
    else if es[|es| - 1].leafId == x then es[|es| - 1].dist
    else LastDist(es[..|es| - 1], x)
  }

  /** The distance of x in the last of the lists L[lo], ..., L[hi - 1] that holds it. */
  function LastDistIn(L: seq<seq<NodeExInfo>>, lo: nat, hi: nat, x: int): int
    requires hi <= |L|
    decreases hi
  {
    if hi <= lo then 0
    else if x in Ids(L[hi - 1]) then LastDist(L[hi - 1], x)
    else LastDistIn(L, lo, hi - 1, x)
  }

  /** The distance of x below the node whose lists are L. */
  function NodeDist(L: seq<seq<NodeExInfo>>, x: int): int
  {
    LastDistIn(L, 0, |L|, x)
  }

  /** No id lies in two different lists. */
  predicate Disjoint(IL: seq<seq<int>>)
  {
    forall a, b, x :: 0 <= a < |IL| && 0 <= b < |IL| && a != b && x in IL[a] ==> x !in IL[b]
  }

  lemma {:induction false} LastDistInUnique(L: seq<seq<NodeExInfo>>, lo: nat, hi: nat, k: nat, x: int)
    requires Disjoint(IdsOf(L)) && lo <= k < hi <= |L| && x in Ids(L[k])
    ensures LastDistIn(L, lo, hi, x) == LastDist(L[k], x)
    decreases hi
  {
    if hi - 1 != k {
      assert x !in IdsOf(L)[hi - 1];
      LastDistInUnique(L, lo, hi - 1, k, x);
    }
  }

  lemma IdsSnoc(s: seq<NodeExInfo>, m: nat)
    requires m < |s|
    ensures Ids(s[..m + 1]) == Ids(s[..m]) + [s[m].leafId]
    ensures s[..m + 1][..m] == s[..m] && s[..m + 1][m] == s[m]
  {
  }

  method MarkPairsEx(nodal: array2<int>, e1: NodeExInfo, second: seq<NodeExInfo>)
    requires 0 <= e1.leafId < nodal.Length0 && nodal.Length1 == nodal.Length0
    requires forall y :: y in Ids(second) ==> 0 <= y < nodal.Length0
    requires e1.leafId !in Ids(second)
    modifies nodal
    ensures forall x, y :: 0 <= x < nodal.Length0 && 0 <= y < nodal.Length1 ==>
      nodal[x, y] == if x == e1.leafId && y in Ids(second) then e1.dist
                     else if y == e1.leafId && x in Ids(second) then LastDist(second, x)
                     else old(nodal[x, y])
  {
    for m := 0 to |second|
      invariant forall x, y :: 0 <= x < nodal.Length0 && 0 <= y < nodal.Length1 ==>
        nodal[x, y] == if x == e1.leafId && y in Ids(second[..m]) then e1.dist
                       else if y == e1.leafId && x in Ids(second[..m]) then LastDist(second[..m], x)
                       else old(nodal[x, y])
    {
      var i2 := second[m];
      assert i2.leafId in Ids(second);
      IdsSnoc(second, m);
      nodal[e1.leafId, i2.leafId] := e1.dist;
      nodal[i2.leafId, e1.leafId] := i2.dist;
    }
    assert second[..|second|] == second;
  }

  method MarkAgainstEx(nodal: array2<int>, e1: NodeExInfo, L: seq<seq<NodeExInfo>>, j: nat)
    requires 0 <= e1.leafId < nodal.Length0 && nodal.Length1 == nodal.Length0
    requires j < |L| && InRange(IdsOf(L), nodal.Length0)
    requires forall k :: j < k < |L| ==> e1.leafId !in Ids(L[k])
    modifies nodal
    ensures forall x, y :: 0 <= x < nodal.Length0 && 0 <= y < nodal.Length1 ==>
      nodal[x, y] == if x == e1.leafId && InGroups(IdsOf(L), j + 1, |L|, y) then e1.dist
                     else if y == e1.leafId && InGroups(IdsOf(L), j + 1, |L|, x) then LastDistIn(L, j + 1, |L|, x)
                     else old(nodal[x, y])
  {
    for k := j + 1 to |L|
      invariant forall x, y :: 0 <= x < nodal.Length0 && 0 <= y < nodal.Length1 ==>
        nodal[x, y] == if x == e1.leafId && InGroups(IdsOf(L), j + 1, k, y) then e1.dist
                       else if y == e1.leafId && InGroups(IdsOf(L), j + 1, k, x) then LastDistIn(L, j + 1, k, x)
                       else old(nodal[x, y])
    {
      assert IdsOf(L)[k] == Ids(L[k]);
      MarkPairsEx(nodal, e1, L[k]);
    }
  }

  lemma LaterNotHere(IL: seq<seq<int>>, j: nat)
    requires j < |IL| && Disjoint(IL)
    ensures forall x :: InGroups(IL, j + 1, |IL|, x) ==> x !in IL[j]
  {
    forall x | InGroups(IL, j + 1, |IL|, x)
      ensures x !in IL[j]
    {
      InGroupsMeaning(IL, j + 1, |IL|, x);
      var k :| j + 1 <= k < |IL| && x in IL[k];
    }
  }

  method MarkGroupEx(nodal: array2<int>, L: seq<seq<NodeExInfo>>, j: nat)
    requires nodal.Length1 == nodal.Length0
    requires j < |L| && InRange(IdsOf(L), nodal.Length0) && Disjoint(IdsOf(L))
    modifies nodal
    ensures forall x, y :: 0 <= x < nodal.Length0 && 0 <= y < nodal.Length1 ==>
      nodal[x, y] == if x in Ids(L[j]) && InGroups(IdsOf(L), j + 1, |L|, y) then LastDist(L[j], x)
                     else if y in Ids(L[j]) && InGroups(IdsOf(L), j + 1, |L|, x) then LastDistIn(L, j + 1, |L|, x)
                     else old(nodal[x, y])
  {
    var baseList := L[j];
    assert IdsOf(L)[j] == Ids(baseList);
    LaterNotHere(IdsOf(L), j);
    for m := 0 to |baseList|
      invariant forall x, y :: 0 <= x < nodal.Length0 && 0 <= y < nodal.Length1 ==>
        nodal[x, y] == if x in Ids(baseList[..m]) && InGroups(IdsOf(L), j + 1, |L|, y) then LastDist(baseList[..m], x)
                       else if y in Ids(baseList[..m]) && InGroups(IdsOf(L), j + 1, |L|, x) then LastDistIn(L, j + 1, |L|, x)
                       else old(nodal[x, y])
    {
      var e1 := baseList[m];
      assert e1.leafId in Ids(baseList);
      IdsSnoc(baseList, m);
      forall k | j < k < |L|
        ensures e1.leafId !in Ids(L[k])
      {
        assert IdsOf(L)[k] == Ids(L[k]);
      }
      MarkAgainstEx(nodal, e1, L, j);
    }
    assert baseList[..|baseList|] == baseList;
  }

  /** The pass over one internal node: for a pair it separates, the cell (x, y) gets x's distance. */
  method MarkNodeEx(nodal: array2<int>, L: seq<seq<NodeExInfo>>)
    requires nodal.Length1 == nodal.Length0 && InRange(IdsOf(L), nodal.Length0) && Disjoint(IdsOf(L))
    modifies nodal
    ensures forall x, y :: 0 <= x < nodal.Length0 && 0 <= y < nodal.Length1 ==>
      nodal[x, y] == if Separates(IdsOf(L), x, y) then NodeDist(L, x) else old(nodal[x, y])
  {
    var j := 0;
    while j < |L| - 1
      invariant 0 <= j <= |L|
      invariant |L| > 0 ==> j <= |L| - 1
      invariant forall x, y :: 0 <= x < nodal.Length0 && 0 <= y < nodal.Length1 ==>
        nodal[x, y] == if Passed(IdsOf(L), j, x, y) then NodeDist(L, x) else old(nodal[x, y])
    {
      MarkGroupEx(nodal, L, j);
      forall x | x in Ids(L[j])
        ensures LastDist(L[j], x) == NodeDist(L, x)
      {
        LastDistInUnique(L, 0, |L|, j, x);
      }
      forall x | InGroups(IdsOf(L), j + 1, |L|, x)
        ensures LastDistIn(L, j + 1, |L|, x) == NodeDist(L, x)
      {
        InGroupsMeaning(IdsOf(L), j + 1, |L|, x);
        var k :| j + 1 <= k < |L| && x in IdsOf(L)[k];
        LastDistInUnique(L, j + 1, |L|, k, x);
        LastDistInUnique(L, 0, |L|, k, x);
      }
      assert IdsOf(L)[j] == Ids(L[j]);
      j := j + 1;
    }
  }

  /** The nodal-splitted matrix after the nodes 0 .. n-1 have been processed: x's
      distance below the last node that separates x and y, else 0. */
  function NodalSpec(g: IdGroup, t: Tree, n: nat, x: int, y: int): int
    requires Shaped(t) && n <= |t.children|
  {
    if n == 0 then 0
    else if Separates(InfoOf(g, t, n - 1).leafSets, x, y) then NodeDist(InfoOfEx(g, t, n - 1).leafSets, x)
    else NodalSpec(g, t, n - 1, x, y)
  }

  lemma NodeDisjoint(g: IdGroup, t: Tree, i: nat)
    requires Valid(t) && Covers(g, t) && i < |t.children|
    ensures Disjoint(InfoOf(g, t, i).leafSets)
  {
    var L := InfoOf(g, t, i).leafSets;
    forall a, b | 0 <= a < |L| && 0 <= b < |L| && a != b
      ensures forall x :: x in L[a] ==> x !in L[b]
    {
      GroupsDisjoint(g, t, i, a, b);
    }
  }

  /** No node separates an id from itself. */
  lemma NotSeparatedFromSelf(g: IdGroup, t: Tree, i: nat, x: int)
    requires Valid(t) && Covers(g, t) && i < |t.children|
    ensures !Separates(InfoOf(g, t, i).leafSets, x, x)
  {
    NodeDisjoint(g, t, i);
    SeparatesMeaning(InfoOf(g, t, i).leafSets, x, x);
  }

  lemma {:induction false} NodalDiagonal(g: IdGroup, t: Tree, n: nat, x: int)
    requires Valid(t) && Covers(g, t) && n <= |t.children|
    ensures NodalSpec(g, t, n, x, x) == 0
  {
    if n > 0 {
      NotSeparatedFromSelf(g, t, n - 1, x);
      NodalDiagonal(g, t, n - 1, x);
    }
  }

  /** calcNodalSplittedMatrix: a leafNum x leafNum matrix with a 0 diagonal whose cell (x, y)
      is x's distance below the last internal node that separates x and y. */
  method CalcNodalSplittedMatrix(t: Tree, g: IdGroup) returns (nodalSplittedMatrix: array2<int>)
    requires LcaReady(t, g)
    ensures nodalSplittedMatrix.Length0 == |t.names| && nodalSplittedMatrix.Length1 == |t.names|
    ensures forall x, y :: 0 <= x < |t.names| && 0 <= y < |t.names| ==>
      nodalSplittedMatrix[x, y] == NodalSpec(g, t, |t.children|, x, y)
    ensures forall x :: 0 <= x < |t.names| ==> nodalSplittedMatrix[x, x] == 0
  {
    var leafNum := |t.names|;
    var intNum := |t.children|;
    nodalSplittedMatrix := new int[leafNum, leafNum]((x, y) => 0);
    for i := 0 to leafNum
      invariant forall x, y :: 0 <= x < leafNum && 0 <= y < leafNum ==> nodalSplittedMatrix[x, y] == 0
    {
      nodalSplittedMatrix[i, i] := 0;
    }
    var nodeInfoTab := BuildNodeInfoEx(t, g);
    for i := 0 to intNum
      modifies nodalSplittedMatrix
      invariant forall x, y :: 0 <= x < leafNum && 0 <= y < leafNum ==>
        nodalSplittedMatrix[x, y] == NodalSpec(g, t, i, x, y)
    {
      var leafSet := nodeInfoTab[i].leafSets;
      InfoIds(g, t, i);
      NodeInRange(g, t, i);
      NodeDisjoint(g, t, i);
      MarkNodeEx(nodalSplittedMatrix, leafSet);
    }
    forall x | 0 <= x < leafNum
      ensures nodalSplittedMatrix[x, x] == 0
    {
      NodalDiagonal(g, t, intNum, x);
    }
  }

  // ---------------------------------------------------------------------------
  // The nodal-splitted entry is the number of edges from a leaf up to the LCA

  /** The number of edges from leaf l up to the parent of c: 1 from a leaf child, one more per level. */
  function EdgesUp(t: Tree, c: NodeRef, l: nat): nat
    requires Shaped(t) && IsNode(t, c)
    decreases Rank(c), 1
  {
    match c
    case Ext(_) => 1
    case Int(j) => 1 + EdgesUpList(t, t.children[j], j, l)
  }

  /** The edges from l up to owner, through the last child in cs that is above l (0 if none is). */
  function EdgesUpList(t: Tree, cs: seq<NodeRef>, owner: nat, l: nat): nat
    requires Shaped(t) && owner < |t.children|
    requires forall k :: 0 <= k < |cs| ==> ChildOk(t, owner, cs[k])
    decreases owner + 1, 0, |cs|
  {
    if cs == [] then 0
    else
      var c := cs[|cs| - 1];
      assert ChildOk(t, owner, c);
      if l in Leaves(t, c) then EdgesUp(t, c, l) else EdgesUpList(t, cs[..|cs| - 1], owner, l)
  }

  lemma {:induction false} LastDistAppend(a: seq<NodeExInfo>, b: seq<NodeExInfo>, x: int)
    ensures LastDist(a + b, x) == if x in Ids(b) then LastDist(b, x) else LastDist(a, x)
    decreases |b|
  {
    if b != [] {
      var b' := b[..|b| - 1];
      assert (a + b)[..|a + b| - 1] == a + b';
      assert Ids(b) == Ids(b') + [b[|b| - 1].leafId];
      LastDistAppend(a, b', x);
    } else {
      assert a + b == a;
    }
  }

  lemma {:induction false} LiftLastDist(es: seq<NodeExInfo>, x: int)
    requires x in Ids(es)
    ensures LastDist(Lift(es), x) == LastDist(es, x) + 1
    decreases |es|
  {
    var n := |es|;
    var es' := es[..n - 1];
    assert Lift(es)[..n - 1] == Lift(es');
    assert Ids(es) == Ids(es') + [es[n - 1].leafId];
    if es[n - 1].leafId != x {
      LiftLastDist(es', x);
    }
  }

  lemma {:induction false} LastDistInPrefix(L: seq<seq<NodeExInfo>>, n: nat, hi: nat, x: int)
    requires hi <= n <= |L|
    ensures LastDistIn(L[..n], 0, hi, x) == LastDistIn(L, 0, hi, x)
    decreases hi
  {
    if hi > 0 {
      assert L[..n][hi - 1] == L[hi - 1];
      LastDistInPrefix(L, n, hi - 1, x);
    }
  }

  lemma {:induction false} ConcatLastDist(L: seq<seq<NodeExInfo>>, x: int)
    ensures LastDist(Concat(L), x) == LastDistIn(L, 0, |L|, x)
    decreases |L|
  {
    if L != [] {
      var n := |L|;
      ConcatLastDist(L[..n - 1], x);
      LastDistAppend(Concat(L[..n - 1]), L[n - 1], x);
      LastDistInPrefix(L, n - 1, n - 1, x);
    }
  }

  /** Leaf l's id is among the entries for child c exactly when l is below c. */
  lemma IdInGroup(g: IdGroup, t: Tree, c: NodeRef, l: nat)
    requires Shaped(t) && Covers(g, t) && IsNode(t, c) && l < |t.names|
    ensures IdOf(g, t.names[l]) in Ids(GroupOfEx(g, t, c)) <==> l in Leaves(t, c)
  {
    var x := IdOf(g, t.names[l]);
    GroupIds(g, t, c);
    GroupMembers(g, t, c, x);
    ClusterMember(g, t, c, x);
    if x in Cluster(g, t, c) {
      var l' :| l' in Leaves(t, c) && IdOf(g, t.names[l']) == x;
      if l' != l {
        AliasInjective(g, t, l', l);
      }
    }
  }

  /** The distance TCUtilsNodeEx keeps for a leaf below child c is the number of edges from
      the leaf up to c's parent. */
  lemma {:induction false} DistMeaning(g: IdGroup, t: Tree, c: NodeRef, l: nat)
    requires Shaped(t) && Covers(g, t) && IsNode(t, c) && l in Leaves(t, c)
    ensures LastDist(GroupOfEx(g, t, c), IdOf(g, t.names[l])) == EdgesUp(t, c, l)
    decreases Rank(c), 1
  {
    var x := IdOf(g, t.names[l]);
    match c
    case Ext(_) =>
    case Int(j) =>
      var L := InfoOfEx(g, t, j).leafSets;
      IdInGroup(g, t, c, l);
      assert x in Ids(Concat(L));
      LiftLastDist(Concat(L), x);
      ConcatLastDist(L, x);
      GroupsDist(g, t, t.children[j], j, l);
  }

  lemma {:induction false} GroupsDist(g: IdGroup, t: Tree, cs: seq<NodeRef>, owner: nat, l: nat)
    requires Shaped(t) && Covers(g, t) && owner < |t.children| && l < |t.names|
    requires forall k :: 0 <= k < |cs| ==> ChildOk(t, owner, cs[k])
    ensures LastDistIn(GroupsOfEx(g, t, cs, owner), 0, |cs|, IdOf(g, t.names[l])) == EdgesUpList(t, cs, owner, l)
    decreases owner + 1, 0, |cs|
  {
    if cs != [] {
      var n := |cs|;
      var c := cs[n - 1];
      assert ChildOk(t, owner, c);
      var F := GroupsOfEx(g, t, cs[..n - 1], owner);
      var L := GroupsOfEx(g, t, cs, owner);
      assert L == F + [GroupOfEx(g, t, c)];
      assert L[..n - 1] == F;
      IdInGroup(g, t, c, l);
      if l in Leaves(t, c) {
        DistMeaning(g, t, c, l);
      } else {
        LastDistInPrefix(L, n - 1, n - 1, IdOf(g, t.names[l]));
        GroupsDist(g, t, cs[..n - 1], owner, l);
      }
    }
  }

  lemma {:induction false} GroupsOfExIndex(g: IdGroup, t: Tree, cs: seq<NodeRef>, owner: nat)
    requires Shaped(t) && owner < |t.children|
    requires forall k :: 0 <= k < |cs| ==> ChildOk(t, owner, cs[k])
    ensures forall k :: 0 <= k < |cs| ==> IsNode(t, cs[k]) && GroupsOfEx(g, t, cs, owner)[k] == GroupOfEx(g, t, cs[k])
    decreases |cs|
  {
    if cs != [] {
      GroupsOfExIndex(g, t, cs[..|cs| - 1], owner);
      assert forall k :: 0 <= k < |cs| - 1 ==> cs[..|cs| - 1][k] == cs[k];
      assert ChildOk(t, owner, cs[|cs| - 1]);
    }
  }

  /** For two different ids, the nodal-splitted entry is the distance below the node LcaSpec names. */
  lemma {:induction false} NodalFollowsLca(g: IdGroup, t: Tree, n: nat, x: int, y: int)
    requires Shaped(t) && n <= |t.children| && x != y
    ensures 0 <= LcaSpec(g, t, n, x, y) < |t.children|
    ensures NodalSpec(g, t, n, x, y) ==
      if n > 0 && Separates(InfoOf(g, t, LcaSpec(g, t, n, x, y)).leafSets, x, y)
      then NodeDist(InfoOfEx(g, t, LcaSpec(g, t, n, x, y)).leafSets, x) else 0
  {
    if n > 0 && !Separates(InfoOf(g, t, n - 1).leafSets, x, y) {
      NodalFollowsLca(g, t, n - 1, x, y);
    }
  }

  /** For two different leaves l and m, the nodal-splitted entry is the number of edges from l
      up to their lowest common ancestor. */
  lemma NodalOfLeaves(g: IdGroup, t: Tree, l: nat, m: nat)
    requires LcaReady(t, g) && l < |t.names| && m < |t.names| && l != m
    ensures var r := LcaSpec(g, t, |t.children|, IdOf(g, t.names[l]), IdOf(g, t.names[m]));
      0 <= r < |t.children| &&
      exists a :: 0 <= a < |t.children[r]| && l in Leaves(t, t.children[r][a]) &&
        NodalSpec(g, t, |t.children|, IdOf(g, t.names[l]), IdOf(g, t.names[m])) == EdgesUp(t, t.children[r][a], l)
  {
    var x, y := IdOf(g, t.names[l]), IdOf(g, t.names[m]);
    AliasInjective(g, t, l, m);
    var n := |t.children|;
    LcaOfLeaves(g, t, l, m);
    var r := LcaSpec(g, t, n, x, y);
    var ch := t.children[r];
    var a, b :| 0 <= a < |ch| && 0 <= b < |ch| && a != b && l in Leaves(t, ch[a]) && m in Leaves(t, ch[b]);
    SplitSeparates(g, t, r, l, m);
    NodalFollowsLca(g, t, n, x, y);
    var L := InfoOfEx(g, t, r).leafSets;
    InfoIds(g, t, r);
    NodeDisjoint(g, t, r);
    GroupsOfExIndex(g, t, ch, r);
    IdInGroup(g, t, ch[a], l);
    LastDistInUnique(L, 0, |L|, a, x);
    DistMeaning(g, t, ch[a], l);
  }
}
