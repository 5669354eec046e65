/**
 * ClusterDist: distances between clusters (the leaf sets of rooted subtrees)
 * and the cluster system of a rooted pal tree.  Unlike a split, a cluster is
 * not folded against its complement.
 */
module ClusterDist {
  import opened Wrappers
  import opened PalTree
  import opened SplitDist

  /** clusterXor: the number of positions where the two clades differ. */
  method ClusterXor(cladeT1: seq<bool>, cladeT2: seq<bool>) returns (neq: int)
    requires |cladeT1| <= |cladeT2|
    ensures neq == Mismatches(cladeT1, cladeT2)
  {
    var n := |cladeT1|;
    neq := 0;
    for i := 0 to n
      invariant neq == Mismatches(cladeT1[..i], cladeT2)
    {
      Snoc(cladeT1, i);
      if cladeT1[i] != cladeT2[i] {
        neq := neq + 1;
      }
    }
    Whole(cladeT1);
  }

  /** The mismatch count is symmetric on clades of one length. */
  lemma {:induction false} MismatchesSymmetric(c1: seq<bool>, c2: seq<bool>)
    requires |c1| == |c2|
    ensures Mismatches(c1, c2) == Mismatches(c2, c1)
  {
    MismatchesPrefixSymmetric(c1, c2, |c1|);
    Whole(c1);
    Whole(c2);
  }

  lemma {:induction false} MismatchesPrefixSymmetric(c1: seq<bool>, c2: seq<bool>, k: nat)
    requires k <= |c1| == |c2|
    ensures Mismatches(c1[..k], c2) == Mismatches(c2[..k], c1)
  {
    if k > 0 {
      MismatchesPrefixSymmetric(c1, c2, k - 1);
      assert c1[..k][..k - 1] == c1[..k - 1];
      assert c2[..k][..k - 1] == c2[..k - 1];
    }
  }

  /** Equal clades are at distance 0. */
  lemma {:induction false} MismatchesSelf(c: seq<bool>, d: seq<bool>)
    requires |c| <= |d| && c == d[..|c|]
    ensures Mismatches(c, d) == 0
  {
    if c != [] {
      var k := |c| - 1;
      assert c[..k] == d[..k];
      MismatchesSelf(c[..k], d);
    }
  }

  /** markNode: adds the ids of the leaves below node to cluster, or fails on a leaf
      whose name is not in the id group. */
  method MarkNode(idGroup: IdGroup, t: Tree, node: NodeRef, cluster: set<int>) returns (r: Result<set<int>, string>)
    requires Shaped(t) && IsNode(t, node)
    ensures r.Success? <==> NamedBelow(idGroup, t, node)
    ensures r.Success? ==> r.value == cluster + Cluster(idGroup, t, node)
    decreases Rank(node)
  {
    match node
    case Ext(l) =>
      var name := t.names[l];
      var index := IdOf(idGroup, name);
      if index < 0 {
        return Failure("INCOMPATIBLE IDENTIFIER (" + name + ")");
      }
      return Success(cluster + {index});
    case Int(i) =>
      var ch := t.children[i];
      var acc := cluster;
      for k := 0 to |ch|
        invariant forall c :: 0 <= c < k ==> ChildOk(t, i, ch[c]) && NamedBelow(idGroup, t, ch[c])
        invariant acc == cluster + ClusterOfList(idGroup, t, ch[..k], i)
      {
        var child := ch[k];
        assert ChildOk(t, i, child);
        Snoc(ch, k);
        var res := MarkNode(idGroup, t, child, acc);
        if res.Failure? {
          assert !NamedBelow(idGroup, t, node) by {
            ChildLeavesBelow(t, i, k);
          }
          return res;
        }
        acc := res.value;
      }
      Whole(ch);
      NamedOfList(idGroup, t, ch, i);
      return Success(acc);
  }

  /** The leaves of a child are leaves of its parent. */
  lemma ChildLeavesBelow(t: Tree, i: nat, k: nat)
    requires Shaped(t) && i < |t.children| && k < |t.children[i]|
    ensures ChildOk(t, i, t.children[i][k])
    ensures Leaves(t, t.children[i][k]) <= Leaves(t, Int(i))
  {
    assert ChildOk(t, i, t.children[i][k]);
    forall l | l in Leaves(t, t.children[i][k])
      ensures l in Leaves(t, Int(i))
    {
      LeavesOfListHas(t, t.children[i], i, l);
    }
  }

  /** The clusters RootedTree2BitSetArray returns for t over g: one per internal node but the root. */
  function TreeClusters(g: IdGroup, t: Tree): (s: seq<set<int>>)
    requires Shaped(t)
    ensures |s| == RootIndex(t)
  {
    seq(RootIndex(t), i requires 0 <= i < RootIndex(t) => Cluster(g, t, Int(i)))
  }

  /** What RootedTree2BitSetArray returned is TreeClusters. */
  lemma ClustersAre(s: seq<set<int>>, g: IdGroup, t: Tree)
    requires Shaped(t) && |s| == RootIndex(t)
    requires forall i :: 0 <= i < |s| ==> s[i] == Cluster(g, t, Int(i))
    ensures s == TreeClusters(g, t)
  {
  }

  /** RootedTree2BitSetArray: the cluster of every internal node but the root, in node order;
      Failure when a leaf below one of them is missing from the id group. */
  method RootedTree2BitSetArray(t: Tree, idGroup: IdGroup) returns (r: Result<seq<set<int>>, string>)
    requires Shaped(t)
    ensures r.Success? <==> InnerNamed(idGroup, t)
    ensures r.Success? ==> |r.value| == |t.children| - 1
    ensures r.Success? ==> forall j :: 0 <= j < |r.value| ==> r.value[j] == Cluster(idGroup, t, Int(j))
    ensures r.Success? ==> r.value == TreeClusters(idGroup, t)
  {
    var N := |t.children|;
    var bsA := new set<int>[N - 1];
    var j := 0;
    for i := 0 to N
      invariant j == (if i <= N - 1 then i else N - 1)
      invariant forall a :: 0 <= a < j ==> bsA[a] == Cluster(idGroup, t, Int(a)) && NamedBelow(idGroup, t, Int(a))
    {
      if i == RootIndex(t) {
        continue;
      }
      var res := MarkNode(idGroup, t, Int(i), {});
      if res.Failure? {
        return Failure(res.error);
      }
      bsA[j] := res.value;
      j := j + 1;
    }
    ClustersAre(bsA[..], idGroup, t);
    return Success(bsA[..]);
  }

  /** getDistXorBit: the size of the symmetric difference, taken on a copy. */
  function GetDistXorBit(cluster1: set<int>, cluster2: set<int>): (d: int)
    ensures d == |cluster1 - cluster2| + |cluster2 - cluster1|
  {
    var temp := Xor(cluster1, cluster2);
    |temp|
  }

  /** getAndBit: the size of the intersection, taken on a copy. */
  function GetAndBit(cluster1: set<int>, cluster2: set<int>): (d: int)
    ensures d <= |cluster1| && d <= |cluster2|
  {
    var temp := cluster1 * cluster2;
    assert cluster1 == temp + (cluster1 - cluster2);
    assert cluster2 == temp + (cluster2 - cluster1);
    |temp|
  }

  /**
   * getDistToOAsMinBit: the distance of a cluster to the empty cluster O, with
   * no complement fold (a rooted cluster is not its complement).
   */
  function GetDistToOAsMinBit(cluster: set<int>): (d: int)
    ensures d >= 0
    ensures d == GetDistXorBit(cluster, {})
  {
    |cluster|
  }

  /** The xor distance is the two sizes less twice the shared part. */
  lemma XorByAnd(c1: set<int>, c2: set<int>)
    ensures GetDistXorBit(c1, c2) == |c1| + |c2| - 2 * GetAndBit(c1, c2)
  {
    assert c1 == (c1 - c2) + (c1 * c2);
    assert c2 == (c2 - c1) + (c1 * c2);
  }

  /** The xor distance is 0 exactly on equal clusters. */
  lemma XorZero(c1: set<int>, c2: set<int>)
    ensures GetDistXorBit(c1, c2) == 0 <==> c1 == c2
  {
    if GetDistXorBit(c1, c2) == 0 {
      assert c1 - c2 == {} && c2 - c1 == {};
      assert c1 == c2;
    }
  }
}
