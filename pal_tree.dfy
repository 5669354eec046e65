/**
 * The pal trees TreeCmp compares, as an arena.
 *
 * External nodes (leaves) are numbered 0 .. |names|-1 and internal nodes
 * 0 .. |children|-1; the two numberings are separate, as in pal, and a node
 * reference says which one it uses.  pal numbers an internal node after its
 * subtree, so every internal child has a smaller number than its parent and
 * the root is the last internal node.  The post-order walk that pal computes
 * with `NodeUtils.postorderSuccessor` is given as the sequence `post`.
 */
module PalTree {

  datatype NodeRef = Ext(i: nat) | Int(i: nat)

  datatype Tree = Tree(
    names: seq<string>,            // identifier of each external node
    children: seq<seq<NodeRef>>,   // children of each internal node, in order
    parent: seq<int>,              // parent of each internal node, -1 at the root
    post: seq<NodeRef>)            // all nodes in post-order, the root last

  /** pal's IdGroup: a list of identifiers, looked up by position. */
  type IdGroup = seq<string>

  /** pal's TreeUtils.getLeafIdGroup: the names of the external nodes, in node order. */
  function LeafIdGroup(t: Tree): IdGroup
  {
    t.names
  }

  function ExtNum(t: Tree): nat { |t.names| }

  function IntNum(t: Tree): nat { |t.children| }

  function RootIndex(t: Tree): nat
    requires |t.children| > 0
  {
    |t.children| - 1
  }

  function Root(t: Tree): NodeRef
    requires |t.children| > 0
  {
    Int(RootIndex(t))
  }

  predicate IsNode(t: Tree, x: NodeRef)
  {
    match x
    case Ext(l) => l < |t.names|
    case Int(i) => i < |t.children|
  }

  /** c may be a child of internal node i: it exists and is numbered before i. */
  predicate ChildOk(t: Tree, i: nat, c: NodeRef)
    requires |t.parent| == |t.children| && i < |t.children|
  {
    match c
    case Ext(l) => l < |t.names|
    case Int(j) => j < i && t.parent[j] == i
  }

  /** The structural shape of the arena. */
  predicate Shaped(t: Tree)
  {
    && |t.children| > 0
    && |t.parent| == |t.children|
    && (forall i, k :: 0 <= i < |t.children| && 0 <= k < |t.children[i]| ==> ChildOk(t, i, t.children[i][k]))
    && t.parent[RootIndex(t)] == -1
    && (forall i :: 0 <= i < RootIndex(t) ==> i < t.parent[i] < |t.children|)
  }

  function Rank(x: NodeRef): nat
  {
    match x
    case Ext(_) => 0
    case Int(i) => i + 1
  }

  /** The external-node numbers below x. */
  function Leaves(t: Tree, x: NodeRef): (r: set<nat>)
    requires Shaped(t) && IsNode(t, x)
    ensures forall l :: l in r ==> l < |t.names|
    decreases Rank(x), 1
  {
    match x
    case Ext(l) => {l}
    case Int(i) => LeavesOfList(t, t.children[i], i)
  }

  /** The union of the leaf sets of the nodes cs, all children of internal node `owner`. */
  function LeavesOfList(t: Tree, cs: seq<NodeRef>, owner: nat): (r: set<nat>)
    requires Shaped(t) && owner < |t.children|
    requires forall k :: 0 <= k < |cs| ==> ChildOk(t, owner, cs[k])
    ensures forall l :: l in r ==> l < |t.names|
    decreases owner + 1, 0, |cs|
  {
    if cs == [] then {}
    else
      var c := cs[|cs| - 1];
      assert ChildOk(t, owner, c);
      LeavesOfList(t, cs[..|cs| - 1], owner) + Leaves(t, c)
  }

  /** The post-order sequence visits every node, puts each internal node after its children, and ends at the root. */
  predicate ValidPost(t: Tree)
    requires Shaped(t)
  {
    && |t.post| == |t.names| + |t.children|
    && (forall p :: 0 <= p < |t.post| ==> IsNode(t, t.post[p]))
    && (forall l :: 0 <= l < |t.names| ==> Ext(l) in t.post)
    && (forall i :: 0 <= i < |t.children| ==> Int(i) in t.post)
    && t.post[|t.post| - 1] == Root(t)
    && Root(t) !in t.post[..|t.post| - 1]
    && (forall p :: 0 <= p < |t.post| ==> ChildrenBefore(t, p))
  }

  /** The children of the node at post-order position p come before position p. */
  predicate ChildrenBefore(t: Tree, p: nat)
    requires Shaped(t) && p < |t.post| && IsNode(t, t.post[p])
  {
    t.post[p].Int? ==>
      forall k :: 0 <= k < |t.children[t.post[p].i]| ==> t.children[t.post[p].i][k] in t.post[..p]
  }

  /** The children of internal node i have pairwise disjoint leaf sets. */
  predicate ChildrenDisjoint(t: Tree, i: nat)
    requires Shaped(t) && i < |t.children|
  {
    forall a, b :: 0 <= a < b < |t.children[i]| ==> Leaves(t, t.children[i][a]) !! Leaves(t, t.children[i][b])
  }

  /** A tree: the children of a node have disjoint leaf sets and the root holds every leaf. */
  predicate Valid(t: Tree)
  {
    && Shaped(t)
    && ValidPost(t)
    && (forall i :: 0 <= i < |t.children| ==> ChildrenDisjoint(t, i))
    && (forall l :: 0 <= l < |t.names| ==> l in Leaves(t, Root(t)))
  }

  /** pal's IdGroup.whichIdNumber: the first position of name in g, or -1. */
  function IdOf(g: IdGroup, name: string): (r: int)
    ensures -1 <= r < |g|
    ensures r >= 0 ==> g[r] == name && forall k :: 0 <= k < r ==> g[k] != name
    ensures r == -1 <==> name !in g
  {
    if |g| == 0 then -1
    else if g[0] == name then 0
    else var r := IdOf(g[1..], name); if r == -1 then -1 else r + 1
  }

  /** pal's TreeUtils.mapExternalIdentifiers: the id of every external node. */
  function Alias(g: IdGroup, t: Tree): (alias: seq<int>)
    ensures |alias| == |t.names|
    ensures forall l :: 0 <= l < |t.names| ==> alias[l] == IdOf(g, t.names[l])
  {
    seq(|t.names|, l requires 0 <= l < |t.names| => IdOf(g, t.names[l]))
  }

  /** Every leaf of t is named in g, and no two leaves of t share a name. */
  predicate Covers(g: IdGroup, t: Tree)
  {
    && (forall l :: 0 <= l < |t.names| ==> t.names[l] in g)
    && (forall l, m :: 0 <= l < m < |t.names| ==> t.names[l] != t.names[m])
  }

  /** The cluster of x: the ids, in g, of the leaves below x. */
  function Cluster(g: IdGroup, t: Tree, x: NodeRef): set<int>
    requires Shaped(t) && IsNode(t, x)
    decreases Rank(x), 1
  {
    match x
    case Ext(l) => {IdOf(g, t.names[l])}
    case Int(i) => ClusterOfList(g, t, t.children[i], i)
  }

  function ClusterOfList(g: IdGroup, t: Tree, cs: seq<NodeRef>, owner: nat): set<int>
    requires Shaped(t) && owner < |t.children|
    requires forall k :: 0 <= k < |cs| ==> ChildOk(t, owner, cs[k])
    decreases owner + 1, 0, |cs|
  {
    if cs == [] then {}
    else
      var c := cs[|cs| - 1];
      assert ChildOk(t, owner, c);
      ClusterOfList(g, t, cs[..|cs| - 1], owner) + Cluster(g, t, c)
  }

  /** An id is in the cluster of x exactly when some leaf below x has that id. */
  lemma {:induction false} ClusterMember(g: IdGroup, t: Tree, x: NodeRef, id: int)
    requires Shaped(t) && IsNode(t, x)
    ensures id in Cluster(g, t, x) <==> exists l :: l in Leaves(t, x) && IdOf(g, t.names[l]) == id
    decreases Rank(x), 1
  {
    match x
    case Ext(l) =>
    case Int(i) => ClusterOfListMember(g, t, t.children[i], i, id);
  }

  lemma {:induction false} ClusterOfListMember(g: IdGroup, t: Tree, cs: seq<NodeRef>, owner: nat, id: int)
    requires Shaped(t) && owner < |t.children|
    requires forall k :: 0 <= k < |cs| ==> ChildOk(t, owner, cs[k])
    ensures id in ClusterOfList(g, t, cs, owner) <==>
            exists l :: l in LeavesOfList(t, cs, owner) && IdOf(g, t.names[l]) == id
    decreases owner + 1, 0, |cs|
  {
    if cs != [] {
      ClusterOfListMember(g, t, cs[..|cs| - 1], owner, id);
      ClusterMember(g, t, cs[|cs| - 1], id);
    }
  }

  /** Under a covering id group, the clusters of two children of one node are disjoint. */
  lemma ClusterChildrenDisjoint(g: IdGroup, t: Tree, i: nat, a: nat, b: nat)
    requires Valid(t) && Covers(g, t)
    requires i < |t.children| && a < b < |t.children[i]|
    ensures Cluster(g, t, t.children[i][a]) !! Cluster(g, t, t.children[i][b])
  {
    var ca, cb := t.children[i][a], t.children[i][b];
    assert ChildOk(t, i, ca) && ChildOk(t, i, cb);
    assert ChildrenDisjoint(t, i);
    forall id | id in Cluster(g, t, ca)
      ensures id !in Cluster(g, t, cb)
    {
      ClusterMember(g, t, ca, id);
      ClusterMember(g, t, cb, id);
      var la :| la in Leaves(t, ca) && IdOf(g, t.names[la]) == id;
      if lb :| lb in Leaves(t, cb) && IdOf(g, t.names[lb]) == id {
        assert false;
      }
    }
  }

  /** Membership in the union of a children prefix is membership in one of its members. */
  lemma {:induction false} ClusterOfListHas(g: IdGroup, t: Tree, cs: seq<NodeRef>, owner: nat, id: int)
    requires Shaped(t) && owner < |t.children|
    requires forall k :: 0 <= k < |cs| ==> ChildOk(t, owner, cs[k])
    ensures id in ClusterOfList(g, t, cs, owner) <==> exists k :: 0 <= k < |cs| && id in Cluster(g, t, cs[k])
  {
    if cs != [] {
      ClusterOfListHas(g, t, cs[..|cs| - 1], owner, id);
      if id in ClusterOfList(g, t, cs[..|cs| - 1], owner) {
        var k :| 0 <= k < |cs| - 1 && id in Cluster(g, t, cs[..|cs| - 1][k]);
        assert cs[..|cs| - 1][k] == cs[k];
      }
    }
  }

  lemma {:induction false} LeavesOfListHas(t: Tree, cs: seq<NodeRef>, owner: nat, l: nat)
    requires Shaped(t) && owner < |t.children|
    requires forall k :: 0 <= k < |cs| ==> ChildOk(t, owner, cs[k])
    ensures l in LeavesOfList(t, cs, owner) <==> exists k :: 0 <= k < |cs| && l in Leaves(t, cs[k])
  {
    if cs != [] {
      LeavesOfListHas(t, cs[..|cs| - 1], owner, l);
      if l in LeavesOfList(t, cs[..|cs| - 1], owner) {
        var k :| 0 <= k < |cs| - 1 && l in Leaves(t, cs[..|cs| - 1][k]);
        assert cs[..|cs| - 1][k] == cs[k];
      }
    }
  }

  /** The sum, over the nodes cs, of the sizes of their clusters' intersections with s. */
  function InterSum(g: IdGroup, t: Tree, cs: seq<NodeRef>, owner: nat, s: set<int>): nat
    requires Shaped(t) && owner < |t.children|
    requires forall k :: 0 <= k < |cs| ==> ChildOk(t, owner, cs[k])
  {
    if cs == [] then 0
    else
      var c := cs[|cs| - 1];
      assert ChildOk(t, owner, c);
      InterSum(g, t, cs[..|cs| - 1], owner, s) + |Cluster(g, t, c) * s|
  }

  /** The sum, over the nodes cs, of the numbers of leaves below them. */
  function SizeSum(t: Tree, cs: seq<NodeRef>, owner: nat): nat
    requires Shaped(t) && owner < |t.children|
    requires forall k :: 0 <= k < |cs| ==> ChildOk(t, owner, cs[k])
  {
    if cs == [] then 0
    else
      var c := cs[|cs| - 1];
      assert ChildOk(t, owner, c);
      SizeSum(t, cs[..|cs| - 1], owner) + |Leaves(t, c)|
  }

  lemma PrefixClusterDisjoint(g: IdGroup, t: Tree, i: nat, k: nat)
    requires Valid(t) && Covers(g, t) && i < |t.children| && k < |t.children[i]|
    ensures ClusterOfList(g, t, t.children[i][..k], i) !! Cluster(g, t, t.children[i][k])
  {
    var cs := t.children[i][..k];
    forall id | id in ClusterOfList(g, t, cs, i)
      ensures id !in Cluster(g, t, t.children[i][k])
    {
      ClusterOfListHas(g, t, cs, i, id);
      var a :| 0 <= a < |cs| && id in Cluster(g, t, cs[a]);
      ClusterChildrenDisjoint(g, t, i, a, k);
    }
  }

  lemma PrefixLeavesDisjoint(t: Tree, i: nat, k: nat)
    requires Valid(t) && i < |t.children| && k < |t.children[i]|
    ensures LeavesOfList(t, t.children[i][..k], i) !! Leaves(t, t.children[i][k])
  {
    var cs := t.children[i][..k];
    forall l | l in LeavesOfList(t, cs, i)
      ensures l !in Leaves(t, t.children[i][k])
    {
      LeavesOfListHas(t, cs, i, l);
      var a :| 0 <= a < |cs| && l in Leaves(t, cs[a]);
      assert cs[a] == t.children[i][a];
      assert ChildrenDisjoint(t, i);
    }
  }

  lemma DisjointCard(a: set<int>, b: set<int>, s: set<int>)
    requires a !! b
    ensures |(a + b) * s| == |a * s| + |b * s|
  {
    assert (a + b) * s == a * s + b * s;
    assert (a * s) !! (b * s);
  }

  /**
   * Summing the children's intersections with s gives the node's intersection
   * with s: the child-sum recurrence of the clade-intersection table.
   */
  lemma {:induction false} InterSumIsIntersection(g: IdGroup, t: Tree, i: nat, k: nat, s: set<int>)
    requires Valid(t) && Covers(g, t) && i < |t.children| && k <= |t.children[i]|
    ensures InterSum(g, t, t.children[i][..k], i, s) == |ClusterOfList(g, t, t.children[i][..k], i) * s|
  {
    if k > 0 {
      var cs := t.children[i][..k];
      assert cs[..k - 1] == t.children[i][..k - 1];
      assert cs[k - 1] == t.children[i][k - 1];
      InterSumIsIntersection(g, t, i, k - 1, s);
      PrefixClusterDisjoint(g, t, i, k - 1);
      DisjointCard(ClusterOfList(g, t, cs[..k - 1], i), Cluster(g, t, cs[k - 1]), s);
    }
  }

  /** Summing the children's leaf counts gives the node's leaf count. */
  lemma {:induction false} SizeSumIsSize(t: Tree, i: nat, k: nat)
    requires Valid(t) && i < |t.children| && k <= |t.children[i]|
    ensures SizeSum(t, t.children[i][..k], i) == |LeavesOfList(t, t.children[i][..k], i)|
  {
    if k > 0 {
      var cs := t.children[i][..k];
      assert cs[..k - 1] == t.children[i][..k - 1];
      assert cs[k - 1] == t.children[i][k - 1];
      SizeSumIsSize(t, i, k - 1);
      PrefixLeavesDisjoint(t, i, k - 1);
    }
  }

  /** A covering id group gives every leaf its own id, so a cluster has as many ids as leaves. */
  lemma {:induction false} ClusterSize(g: IdGroup, t: Tree, x: NodeRef)
    requires Valid(t) && Covers(g, t) && IsNode(t, x)
    ensures |Cluster(g, t, x)| == |Leaves(t, x)|
    decreases Rank(x)
  {
    match x
    case Ext(l) =>
    case Int(i) =>
      ClusterSizePrefix(g, t, i, |t.children[i]|);
      assert t.children[i][..|t.children[i]|] == t.children[i];
  }

  lemma {:induction false} ClusterSizePrefix(g: IdGroup, t: Tree, i: nat, k: nat)
    requires Valid(t) && Covers(g, t) && i < |t.children| && k <= |t.children[i]|
    ensures |ClusterOfList(g, t, t.children[i][..k], i)| == |LeavesOfList(t, t.children[i][..k], i)|
    decreases i + 1, k
  {
    if k == |t.children[i]| { assert t.children[i][..k] == t.children[i]; }
    if k > 0 {
      var cs := t.children[i][..k];
      assert cs[..k - 1] == t.children[i][..k - 1];
      assert cs[k - 1] == t.children[i][k - 1];
      assert ChildOk(t, i, cs[k - 1]);
      ClusterSizePrefix(g, t, i, k - 1);
      PrefixClusterDisjoint(g, t, i, k - 1);
      PrefixLeavesDisjoint(t, i, k - 1);
      ClusterSize(g, t, cs[k - 1]);
    }
  }

  /** A covering id group gives distinct leaves distinct ids. */
  lemma AliasInjective(g: IdGroup, t: Tree, l: nat, m: nat)
    requires Covers(g, t) && l < |t.names| && m < |t.names| && l != m
    ensures IdOf(g, t.names[l]) != IdOf(g, t.names[m])
  {
    assert t.names[l] in g && t.names[m] in g;
    if l < m { assert t.names[l] != t.names[m]; } else { assert t.names[m] != t.names[l]; }
  }

  /** Every leaf id under a covering group is a valid position of the group. */
  lemma AliasInRange(g: IdGroup, t: Tree, l: nat)
    requires Covers(g, t) && l < |t.names|
    ensures 0 <= IdOf(g, t.names[l]) < |g|
  {
    assert t.names[l] in g;
  }

  /** Every leaf below x has its name in g. */
  predicate NamedBelow(g: IdGroup, t: Tree, x: NodeRef)
    requires Shaped(t) && IsNode(t, x)
  {
    forall l :: l in Leaves(t, x) ==> t.names[l] in g
  }

  /** Every leaf below a non-root internal node has its name in g. */
  predicate InnerNamed(g: IdGroup, t: Tree)
    requires Shaped(t)
  {
    forall i :: 0 <= i < RootIndex(t) ==> NamedBelow(g, t, Int(i))
  }

  /** The leaves of a tree are all named by the tree's own leaf id group. */
  lemma OwnNamed(t: Tree)
    requires Shaped(t)
    ensures InnerNamed(LeafIdGroup(t), t)
  {
  }

  /** The leaves below a run of children are named when those of each child are. */
  lemma {:induction false} NamedOfList(g: IdGroup, t: Tree, cs: seq<NodeRef>, owner: nat)
    requires Shaped(t) && owner < |t.children|
    requires forall k :: 0 <= k < |cs| ==> ChildOk(t, owner, cs[k]) && NamedBelow(g, t, cs[k])
    ensures forall l :: l in LeavesOfList(t, cs, owner) ==> t.names[l] in g
  {
    if cs != [] {
      NamedOfList(g, t, cs[..|cs| - 1], owner);
      assert NamedBelow(g, t, cs[|cs| - 1]);
    }
  }

  /** Growing a prefix by one element. */
  lemma Snoc<T>(s: seq<T>, k: nat)
    requires k < |s|
    ensures s[..k + 1] == s[..k] + [s[k]]
    ensures s[..k + 1][..k] == s[..k] && s[..k + 1][k] == s[k]
    ensures forall x :: x in s[..k + 1] <==> x in s[..k] || x == s[k]
  {
    assert s[..k + 1] == s[..k] + [s[k]];
  }

  lemma Whole<T>(s: seq<T>)
    ensures s[..|s|] == s
  {
  }
}
