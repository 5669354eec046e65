/**
 * The order of the lowest common ancestors of leaf pairs, as getTripletType
 * reads it from the nodal-splitted matrix.  The internal nodes above one leaf
 * lie on a single chain from the leaf to the root, the nodal entry measures
 * how far up that chain a pair's lca sits, and of the three pairwise lcas of
 * three leaves two always coincide.
 */
module LcaOrder {
  import opened PalTree
  import opened TreeCmpUtilsLca

  /** pal's links: every non-root internal node is one of its parent's children. */
  predicate Linked(t: Tree)
    requires Shaped(t)
  {
    forall i :: 0 <= i < RootIndex(t) ==> Int(i) in t.children[t.parent[i]]
  }

  /** Node x lies in the subtree of node y (x may be y). */
  predicate Below(t: Tree, x: NodeRef, y: NodeRef)
    requires Shaped(t) && IsNode(t, y)
    decreases Rank(y)
  {
    x == y || (y.Int? && exists k :: 0 <= k < |t.children[y.i]| && Below(t, x, t.children[y.i][k]))
  }

  /** Internal node r lies strictly below internal node s. */
  predicate StrictlyBelow(t: Tree, r: int, s: int)
    requires Shaped(t)
  {
    0 <= r < |t.children| && 0 <= s < |t.children| && r != s && Below(t, Int(r), Int(s))
  }

  /** The number of edges from leaf l up to internal node r. */
  function Dist(t: Tree, r: nat, l: nat): nat
    requires Shaped(t) && r < |t.children|
  {
    EdgesUpList(t, t.children[r], r, l)
  }

  /** The lca matrix entry of leaves l and m, addressed by their ids. */
  function LcaOf(g: IdGroup, t: Tree, l: nat, m: nat): int
    requires Shaped(t) && l < |t.names| && m < |t.names|
  {
    LcaSpec(g, t, |t.children|, IdOf(g, t.names[l]), IdOf(g, t.names[m]))
  }

  // ---------------------------------------------------------------------------
  // Subtrees

  lemma {:induction false} BelowLeaves(t: Tree, x: NodeRef, y: NodeRef)
    requires Shaped(t) && IsNode(t, x) && IsNode(t, y) && Below(t, x, y)
    ensures Leaves(t, x) <= Leaves(t, y)
    decreases Rank(y)
  {
    if x != y {
      var k :| 0 <= k < |t.children[y.i]| && Below(t, x, t.children[y.i][k]);
      var c := t.children[y.i][k];
      assert ChildOk(t, y.i, c);
      BelowLeaves(t, x, c);
      forall l | l in Leaves(t, c)
        ensures l in Leaves(t, y)
      {
        LeavesOfListHas(t, t.children[y.i], y.i, l);
      }
    }
  }

  lemma {:induction false} BelowTrans(t: Tree, x: NodeRef, y: NodeRef, z: NodeRef)
    requires Shaped(t) && IsNode(t, y) && IsNode(t, z) && Below(t, x, y) && Below(t, y, z)
    ensures Below(t, x, z)
    decreases Rank(z)
  {
    if y != z {
      var k :| 0 <= k < |t.children[z.i]| && Below(t, y, t.children[z.i][k]);
      assert ChildOk(t, z.i, t.children[z.i][k]);
      BelowTrans(t, x, y, t.children[z.i][k]);
    }
  }

  /** With pal's links, every internal node lies below the root. */
  lemma {:induction false} UnderRoot(t: Tree, i: nat)
    requires Shaped(t) && Linked(t) && i < |t.children|
    ensures Below(t, Int(i), Root(t))
    decreases |t.children| - i
  {
    if i < RootIndex(t) {
      var p: nat := t.parent[i];
      UnderRoot(t, p);
      var k :| 0 <= k < |t.children[p]| && t.children[p][k] == Int(i);
      assert Below(t, Int(i), t.children[p][k]);
      assert Below(t, Int(i), Int(p));
      BelowTrans(t, Int(i), Int(p), Root(t));
    }
  }

  /** A leaf is below at most one child of a node. */
  lemma OneChildHolds(t: Tree, i: nat, a: nat, b: nat, l: nat)
    requires Valid(t) && i < |t.children| && a < |t.children[i]| && b < |t.children[i]|
    requires l in Leaves(t, t.children[i][a]) && l in Leaves(t, t.children[i][b])
    ensures a == b
  {
    assert ChildrenDisjoint(t, i);
    if a != b {
      assert false;
    }
  }

  /** Two nodes of one subtree that hold a common leaf lie one below the other. */
  lemma {:induction false} Comparable(t: Tree, y: NodeRef, x1: NodeRef, x2: NodeRef, l: nat)
    requires Valid(t) && IsNode(t, y) && IsNode(t, x1) && IsNode(t, x2)
    requires Below(t, x1, y) && Below(t, x2, y) && l in Leaves(t, x1) && l in Leaves(t, x2)
    ensures Below(t, x1, x2) || Below(t, x2, x1)
    decreases Rank(y)
  {
    if x1 != y && x2 != y {
      var ch := t.children[y.i];
      var k1 :| 0 <= k1 < |ch| && Below(t, x1, ch[k1]);
      var k2 :| 0 <= k2 < |ch| && Below(t, x2, ch[k2]);
      assert ChildOk(t, y.i, ch[k1]) && ChildOk(t, y.i, ch[k2]);
      BelowLeaves(t, x1, ch[k1]);
      BelowLeaves(t, x2, ch[k2]);
      OneChildHolds(t, y.i, k1, k2, l);
      Comparable(t, ch[k1], x1, x2, l);
    }
  }

  // ---------------------------------------------------------------------------
  // Distances up the chain

  lemma {:induction false} EdgesUpListPick(t: Tree, cs: seq<NodeRef>, owner: nat, a: nat, l: nat)
    requires Shaped(t) && owner < |t.children|
    requires forall k :: 0 <= k < |cs| ==> ChildOk(t, owner, cs[k])
    requires a < |cs| && IsNode(t, cs[a]) && l in Leaves(t, cs[a])
    requires forall b :: 0 <= b < |cs| && b != a && IsNode(t, cs[b]) ==> l !in Leaves(t, cs[b])
    ensures EdgesUpList(t, cs, owner, l) == EdgesUp(t, cs[a], l)
    decreases |cs|
  {
    if a != |cs| - 1 {
      var cs' := cs[..|cs| - 1];
      assert forall k :: 0 <= k < |cs'| ==> cs'[k] == cs[k];
      assert ChildOk(t, owner, cs[|cs| - 1]);
      EdgesUpListPick(t, cs', owner, a, l);
    }
  }

  /** The edges up to a node pass through the one child that holds the leaf. */
  lemma ChildDist(t: Tree, i: nat, a: nat, l: nat)
    requires Valid(t) && i < |t.children| && a < |t.children[i]| && l in Leaves(t, t.children[i][a])
    ensures Dist(t, i, l) == EdgesUp(t, t.children[i][a], l)
  {
    forall b | 0 <= b < |t.children[i]| && b != a
      ensures l !in Leaves(t, t.children[i][b])
    {
      assert ChildOk(t, i, t.children[i][b]);
      if l in Leaves(t, t.children[i][b]) {
        OneChildHolds(t, i, a, b, l);
      }
    }
    EdgesUpListPick(t, t.children[i], i, a, l);
  }

  /** Going up the chain above a leaf, the distance grows by at least one per node. */
  lemma {:induction false} DistGrows(t: Tree, r: nat, s: nat, l: nat)
    requires Valid(t) && r < |t.children| && s < |t.children|
    requires Below(t, Int(r), Int(s)) && l in Leaves(t, Int(r))
    ensures Dist(t, r, l) <= Dist(t, s, l)
    ensures r != s ==> Dist(t, r, l) < Dist(t, s, l)
    decreases s
  {
    if r != s {
      var ch := t.children[s];
      var k :| 0 <= k < |ch| && Below(t, Int(r), ch[k]);
      assert ChildOk(t, s, ch[k]);
      assert ch[k].Int?;
      var j := ch[k].i;
      BelowLeaves(t, Int(r), ch[k]);
      ChildDist(t, s, k, l);
      DistGrows(t, r, j, l);
    }
  }

  // ---------------------------------------------------------------------------
  // Splits

  lemma SplitHolds(t: Tree, r: nat, l: nat, m: nat)
    requires Shaped(t) && r < |t.children| && SplitsLeaves(t, r, l, m)
    ensures l < |t.names| && m < |t.names|
    ensures l in Leaves(t, Int(r)) && m in Leaves(t, Int(r))
  {
    var ch := t.children[r];
    var a, b :| 0 <= a < |ch| && 0 <= b < |ch| && a != b && l in Leaves(t, ch[a]) && m in Leaves(t, ch[b]);
    LeavesOfListHas(t, ch, r, l);
    LeavesOfListHas(t, ch, r, m);
  }

  lemma SplitSymmetric(t: Tree, r: nat, l: nat, m: nat)
    requires Shaped(t) && r < |t.children| && SplitsLeaves(t, r, l, m)
    ensures SplitsLeaves(t, r, m, l)
  {
    var ch := t.children[r];
    var a, b :| 0 <= a < |ch| && 0 <= b < |ch| && a != b && l in Leaves(t, ch[a]) && m in Leaves(t, ch[b]);
    assert m in Leaves(t, ch[b]) && l in Leaves(t, ch[a]);
  }

  /** If r separates l from m and a node strictly below r holds l and p, r separates p from m. */
  lemma Absorb(t: Tree, r: nat, s: nat, l: nat, m: nat, p: nat)
    requires Valid(t) && r < |t.children| && SplitsLeaves(t, r, l, m) && StrictlyBelow(t, s, r)
    requires l in Leaves(t, Int(s)) && p in Leaves(t, Int(s))
    ensures SplitsLeaves(t, r, p, m)
  {
    var ch := t.children[r];
    var a, b :| 0 <= a < |ch| && 0 <= b < |ch| && a != b && l in Leaves(t, ch[a]) && m in Leaves(t, ch[b]);
    var e :| 0 <= e < |ch| && Below(t, Int(s), ch[e]);
    assert ChildOk(t, r, ch[e]);
    BelowLeaves(t, Int(s), ch[e]);
    OneChildHolds(t, r, a, e, l);
    assert p in Leaves(t, ch[a]);
  }

  /** No node separates a leaf from itself. */
  lemma NoSelfSplit(t: Tree, r: nat, l: nat)
    requires Valid(t) && r < |t.children|
    ensures !SplitsLeaves(t, r, l, l)
  {
    var ch := t.children[r];
    forall a, b | 0 <= a < |ch| && 0 <= b < |ch| && l in Leaves(t, ch[a]) && l in Leaves(t, ch[b])
      ensures a == b
    {
      OneChildHolds(t, r, a, b, l);
    }
  }

  /** Only one node separates two leaves: their lowest common ancestor. */
  lemma SplitUnique(t: Tree, r1: nat, r2: nat, l: nat, m: nat)
    requires Valid(t) && Linked(t) && r1 < |t.children| && r2 < |t.children|
    requires SplitsLeaves(t, r1, l, m) && SplitsLeaves(t, r2, l, m)
    ensures r1 == r2
  {
    SplitHolds(t, r1, l, m);
    SplitHolds(t, r2, l, m);
    UnderRoot(t, r1);
    UnderRoot(t, r2);
    Comparable(t, Root(t), Int(r1), Int(r2), l);
    if r1 != r2 {
      if Below(t, Int(r1), Int(r2)) {
        Absorb(t, r2, r1, l, m, m);
        NoSelfSplit(t, r2, m);
      } else {
        Absorb(t, r1, r2, l, m, m);
        NoSelfSplit(t, r1, m);
      }
      assert false;
    }
  }

  /** The lca entry of two different leaves separates them, and their nodal entry
      is the distance from the first up to it. */
  lemma LcaFacts(g: IdGroup, t: Tree, l: nat, m: nat)
    requires LcaReady(t, g) && l < |t.names| && m < |t.names| && l != m
    ensures 0 <= LcaOf(g, t, l, m) < |t.children|
    ensures LcaOf(g, t, l, m) == LcaOf(g, t, m, l)
    ensures SplitsLeaves(t, LcaOf(g, t, l, m), l, m)
    ensures l in Leaves(t, Int(LcaOf(g, t, l, m))) && m in Leaves(t, Int(LcaOf(g, t, l, m)))
    ensures NodalSpec(g, t, |t.children|, IdOf(g, t.names[l]), IdOf(g, t.names[m])) == Dist(t, LcaOf(g, t, l, m), l)
  {
    var n := |t.children|;
    LcaOfLeaves(g, t, l, m);
    LcaSymmetric(g, t, n, IdOf(g, t.names[l]), IdOf(g, t.names[m]));
    NodalOfLeaves(g, t, l, m);
    var r := LcaOf(g, t, l, m);
    var a :| 0 <= a < |t.children[r]| && l in Leaves(t, t.children[r][a]) &&
      NodalSpec(g, t, n, IdOf(g, t.names[l]), IdOf(g, t.names[m])) == EdgesUp(t, t.children[r][a], l);
    ChildDist(t, r, a, l);
    SplitHolds(t, r, l, m);
  }

  // ---------------------------------------------------------------------------
  // Three leaves

  /**
   * For three different leaves i, j, k with u = lca(i,j), v = lca(j,k) and
   * w = lca(i,k): u and v are equal or one lies strictly below the other; when
   * v is below u then w is u, when u is below v then w is v, and when u and v
   * coincide w is u or lies strictly below it.
   */
  lemma TripleShape(g: IdGroup, t: Tree, i: nat, j: nat, k: nat)
    requires LcaReady(t, g) && Linked(t)
    requires i < |t.names| && j < |t.names| && k < |t.names| && i != j && j != k && i != k
    ensures var u, v, w := LcaOf(g, t, i, j), LcaOf(g, t, j, k), LcaOf(g, t, i, k);
      && (u == v || StrictlyBelow(t, u, v) || StrictlyBelow(t, v, u))
      && (StrictlyBelow(t, v, u) ==> w == u)
      && (StrictlyBelow(t, u, v) ==> w == v)
      && (u == v ==> w == u || StrictlyBelow(t, w, u))
  {
    var u, v, w := LcaOf(g, t, i, j), LcaOf(g, t, j, k), LcaOf(g, t, i, k);
    LcaFacts(g, t, i, j);
    LcaFacts(g, t, j, k);
    LcaFacts(g, t, i, k);
    UnderRoot(t, u);
    UnderRoot(t, v);
    UnderRoot(t, w);
    Comparable(t, Root(t), Int(u), Int(v), j);
    if StrictlyBelow(t, v, u) {
      // u separates j from i, and v below u holds j and k
      SplitSymmetric(t, u, i, j);
      Absorb(t, u, v, j, i, k);
      SplitSymmetric(t, u, k, i);
      SplitUnique(t, u, w, i, k);
    }
    if StrictlyBelow(t, u, v) {
      // v separates j from k, and u below v holds j and i
      Absorb(t, v, u, j, k, i);
      SplitUnique(t, v, w, i, k);
    }
    if u == v {
      Comparable(t, Root(t), Int(u), Int(w), i);
      if w != u && Below(t, Int(u), Int(w)) {
        // w would separate i from k, both below u strictly below w
        Absorb(t, w, u, i, k, k);
        NoSelfSplit(t, w, k);
        assert false;
      }
    }
  }

  /** The distances the nodal matrix holds, in the same terms. */
  lemma TripleDistances(g: IdGroup, t: Tree, i: nat, j: nat, k: nat)
    requires LcaReady(t, g) && Linked(t)
    requires i < |t.names| && j < |t.names| && k < |t.names| && i != j && j != k && i != k
    ensures var u, v, w := LcaOf(g, t, i, j), LcaOf(g, t, j, k), LcaOf(g, t, i, k);
      && 0 <= u < |t.children| && 0 <= v < |t.children| && 0 <= w < |t.children|
      && (StrictlyBelow(t, v, u) ==> Dist(t, v, j) < Dist(t, u, j))
      && (StrictlyBelow(t, u, v) ==> Dist(t, u, j) < Dist(t, v, j))
      && (StrictlyBelow(t, w, u) ==> Dist(t, w, i) < Dist(t, u, i))
  {
    var u, v, w := LcaOf(g, t, i, j), LcaOf(g, t, j, k), LcaOf(g, t, i, k);
    LcaFacts(g, t, i, j);
    LcaFacts(g, t, j, k);
    LcaFacts(g, t, i, k);
    if StrictlyBelow(t, v, u) {
      DistGrows(t, v, u, j);
    }
    if StrictlyBelow(t, u, v) {
      DistGrows(t, u, v, j);
    }
    if StrictlyBelow(t, w, u) {
      DistGrows(t, w, u, i);
    }
  }
}
