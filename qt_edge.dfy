/**
 * QtEdge: the directed edges of the quartet code's unrooted trees.  Every
 * undirected edge appears twice, once in each direction, and each directed
 * edge e stands for the rooted subtree found by walking from the node it
 * leaves (from) through the node it enters (to) and away from it.  An edge
 * caches the number of leaves of that subtree (setSize), and intSize
 * computes, with a memo table, how many leaves two such subtrees of two trees
 * have in common.
 *
 * The object graph is an arena: nodes and edges are numbered, an edge's id is
 * its position, out[n] lists the edges leaving node n, and leafName[n] is the
 * name of node n when it is a leaf.  The recursion of both methods walks away
 * from the edge's from-node; what makes it stop in a tree is given as a ghost
 * rank per edge (the height of its subtree), which shrinks along every step.
 */
module QtEdge {
  import opened Wrappers

  datatype Net = Net(from: seq<nat>, to: seq<nat>, back: seq<nat>,
                     out: seq<seq<nat>>, leafName: seq<Option<string>>)

  /** Every index stored in the net is in range. */
  ghost predicate Shaped(g: Net)
  {
    |g.to| == |g.from| && |g.back| == |g.from| && |g.leafName| == |g.out| &&
    (forall e :: 0 <= e < |g.from| ==> g.from[e] < |g.out| && g.to[e] < |g.out| && g.back[e] < |g.from|) &&
    (forall n, k :: 0 <= n < |g.out| && 0 <= k < |g.out[n]| ==> g.out[n][k] < |g.from|)
  }

  /** Each edge leaves the node that lists it, and an edge's back edge runs the other way. */
  ghost predicate Wired(g: Net)
    requires Shaped(g)
  {
    (forall n, k :: 0 <= n < |g.out| && 0 <= k < |g.out[n]| ==> g.from[g.out[n][k]] == n) &&
    (forall e :: 0 <= e < |g.from| ==>
       g.from[g.back[e]] == g.to[e] && g.to[g.back[e]] == g.from[e] && g.back[g.back[e]] == e)
  }

  /** The edges that setSize and intSize follow from e: those leaving e's to-node, except the one back to e's from-node. */
  ghost predicate Ranked(g: Net, rank: seq<nat>)
    requires Shaped(g)
  {
    |rank| == |g.from| &&
    forall e, k :: 0 <= e < |g.from| && 0 <= k < |g.out[g.to[e]]| && g.to[g.out[g.to[e]][k]] != g.from[e] ==>
      rank[g.out[g.to[e]][k]] < rank[e]
  }

  ghost predicate Acyclic(g: Net, rank: seq<nat>)
  {
    Shaped(g) && Ranked(g, rank)
  }

  /** The edge enters a leaf. */
  predicate IntoLeaf(g: Net, e: nat)
    requires |g.to| == |g.from| && |g.leafName| == |g.out|
    requires e < |g.from| && g.to[e] < |g.out|
  {
    g.leafName[g.to[e]].Some?
  }

  // ------------------------------------------------------------ subtrees

  /** The leaf names of the rooted subtree that edge e stands for, in walking order. */
  ghost function Below(g: Net, rank: seq<nat>, e: nat): seq<string>
    requires Acyclic(g, rank) && e < |g.from|
    decreases rank[e], 1
  {
    match g.leafName[g.to[e]]
    case Some(name) => [name]
    case None => BelowUpTo(g, rank, e, |g.out[g.to[e]]|)
  }

  /** The names below the first k edges leaving e's to-node, skipping the way back. */
  ghost function BelowUpTo(g: Net, rank: seq<nat>, e: nat, k: nat): seq<string>
    requires Acyclic(g, rank) && e < |g.from| && k <= |g.out[g.to[e]]|
    decreases rank[e], 0, k
  {
    if k == 0 then []
    else
      var f := g.out[g.to[e]][k - 1];
      BelowUpTo(g, rank, e, k - 1) + (if g.to[f] == g.from[e] then [] else Below(g, rank, f))
  }

  /** The cached sizes, where already positive, are the subtree sizes (skip names one edge left out). */
  ghost predicate SizesUpTo(g: Net, rank: seq<nat>, s: seq<int>, r: int, skip: int)
    requires Acyclic(g, rank) && |s| == |g.from|
  {
    forall f :: 0 <= f < |s| && f != skip && rank[f] <= r && s[f] > 0 ==> s[f] == |Below(g, rank, f)|
  }

  /**
   * setSize.  A size that is already positive is kept; an edge into a leaf
   * has size 1; otherwise the size is the sum of the sizes of the edges that
   * continue from its to-node, computing each of those first if it is not
   * positive yet.  Only sizes that were not positive change, and each one
   * that changes becomes its subtree's number of leaves.
   */
  method SetSize(g: Net, ghost rank: seq<nat>, size: array<int>, e: nat)
    requires Acyclic(g, rank) && size.Length == |g.from| && e < |g.from|
    requires SizesUpTo(g, rank, size[..], rank[e], -1)
    modifies size
    ensures size[e] == |Below(g, rank, e)|
    ensures SizesUpTo(g, rank, size[..], rank[e], -1)
    ensures forall f :: 0 <= f < size.Length && size[f] != old(size[f]) ==>
              old(size[f]) <= 0 && rank[f] <= rank[e] && size[f] == |Below(g, rank, f)|
    decreases rank[e]
  {
    if size[e] > 0 {
      return;
    }
    var n := g.to[e];
    if g.leafName[n].Some? {
      size[e] := 1;
      return;
    }
    size[e] := 0;
    var k := 0;
    while k < |g.out[n]|
      invariant 0 <= k <= |g.out[n]|
      invariant size[e] == |BelowUpTo(g, rank, e, k)|
      invariant SizesUpTo(g, rank, size[..], rank[e], e)
      invariant forall f :: 0 <= f < size.Length && f != e && size[f] != old(size[f]) ==>
                  old(size[f]) <= 0 && rank[f] < rank[e] && size[f] == |Below(g, rank, f)|
    {
      var next := g.out[n][k];
      if g.to[next] != g.from[e] {
        if size[next] <= 0 {
          SetSize(g, rank, size, next);
        }
        size[e] := size[e] + size[next];
      }
      k := k + 1;
    }
  }

  // ------------------------------------------------------------ shared leaves

  /** The number of pairs of equal names, one from each list. */
  function PairCount(xs: seq<string>, ys: seq<string>): nat
    decreases |xs|
  {
    if |xs| == 0 then 0 else PairCount(xs[..|xs| - 1], ys) + multiset(ys)[xs[|xs| - 1]]
  }

  lemma {:induction false} PairCountAppendLeft(xs: seq<string>, zs: seq<string>, ys: seq<string>)
    ensures PairCount(xs + zs, ys) == PairCount(xs, ys) + PairCount(zs, ys)
    decreases |zs|
  {
    if |zs| == 0 {
      assert xs + zs == xs;
    } else {
      var w := xs + zs;
      assert w[..|w| - 1] == xs + zs[..|zs| - 1];
      assert w[|w| - 1] == zs[|zs| - 1];
      PairCountAppendLeft(xs, zs[..|zs| - 1], ys);
    }
  }

  lemma {:induction false} PairCountAppendRight(xs: seq<string>, ys: seq<string>, zs: seq<string>)
    ensures PairCount(xs, ys + zs) == PairCount(xs, ys) + PairCount(xs, zs)
    decreases |xs|
  {
    if |xs| > 0 {
      PairCountAppendRight(xs[..|xs| - 1], ys, zs);
      assert multiset(ys + zs) == multiset(ys) + multiset(zs);
    }
  }

  /** Nothing is shared with an empty list. */
  lemma {:induction false} PairCountEmpty(xs: seq<string>)
    ensures PairCount(xs, []) == 0
    decreases |xs|
  {
    if |xs| > 0 {
      PairCountEmpty(xs[..|xs| - 1]);
    }
  }

  /** Two single leaves share one leaf exactly when their names are equal. */
  lemma PairCountLeaves(a: string, b: string)
    ensures PairCount([a], [b]) == if a == b then 1 else 0
  {
    assert [a][..0] == [];
  }

  /** The number of leaves the subtrees of edge i of t1 and edge j of t2 share. */
  ghost function Common(t1: Net, r1: seq<nat>, i: nat, t2: Net, r2: seq<nat>, j: nat): nat
    requires Acyclic(t1, r1) && Acyclic(t2, r2) && i < |t1.from| && j < |t2.from|
  {
    PairCount(Below(t1, r1, i), Below(t2, r2, j))
  }

  /** Rows are t1's edges and columns t2's; every cell not holding the sentinel holds its intersection size. */
  ghost predicate TableMemo(t1: Net, r1: seq<nat>, t2: Net, r2: seq<nat>, sizes: array2<int>, sentinel: int)
    requires Acyclic(t1, r1) && Acyclic(t2, r2)
    reads sizes
  {
    sizes.Length0 == |t1.from| && sizes.Length1 == |t2.from| &&
    forall a, b :: 0 <= a < sizes.Length0 && 0 <= b < sizes.Length1 && sizes[a, b] != sentinel ==>
      sizes[a, b] == Common(t1, r1, a, t2, r2, b)
  }

  /**
   * intSize (both the int and the short table; sentinel is the type's
   * MIN_VALUE).  self is an edge of t1 and other one of t2 when row holds,
   * and the other way round when it does not; the cell is always [t1 edge]
   * [t2 edge].  A cell holding the sentinel is computed: two edges into
   * leaves give 1 when the names are equal, else 0; when only self enters a
   * leaf, the sum runs over the edges continuing from other's to-node with
   * row flipped; otherwise it runs over those continuing from self's to-node.
   * Cells already computed keep their values.
   */
  method IntSize(t1: Net, ghost r1: seq<nat>, t2: Net, ghost r2: seq<nat>, sizes: array2<int>,
                 self: nat, other: nat, row: bool, sentinel: int) returns (v: int)
    requires Acyclic(t1, r1) && Acyclic(t2, r2) && sentinel < 0
    requires row ==> self < |t1.from| && other < |t2.from|
    requires !row ==> self < |t2.from| && other < |t1.from|
    requires TableMemo(t1, r1, t2, r2, sizes, sentinel)
    modifies sizes
    ensures TableMemo(t1, r1, t2, r2, sizes, sentinel)
    ensures row ==> v == Common(t1, r1, self, t2, r2, other) && sizes[self, other] == v
    ensures !row ==> v == Common(t1, r1, other, t2, r2, self) && sizes[other, self] == v
    ensures forall a, b :: 0 <= a < sizes.Length0 && 0 <= b < sizes.Length1 && old(sizes[a, b]) != sentinel ==>
              sizes[a, b] == old(sizes[a, b])
    decreases if row then r1[self] + r2[other] else r1[other] + r2[self], 2
  {
    var i := if row then self else other;
    var j := if row then other else self;
    if sizes[i, j] == sentinel {
      var selfLeaf := if row then IntoLeaf(t1, i) else IntoLeaf(t2, j);
      var otherLeaf := if row then IntoLeaf(t2, j) else IntoLeaf(t1, i);
      var sum;
      if selfLeaf {
        if otherLeaf {
          PairCountLeaves(t1.leafName[t1.to[i]].value, t2.leafName[t2.to[j]].value);
          sum := if t1.leafName[t1.to[i]] == t2.leafName[t2.to[j]] then 1 else 0;
        } else if row {
          sum := SumOverRight(t1, r1, t2, r2, sizes, i, j, sentinel);
        } else {
          sum := SumOverLeft(t1, r1, t2, r2, sizes, i, j, sentinel);
        }
      } else if row {
        sum := SumOverLeft(t1, r1, t2, r2, sizes, i, j, sentinel);
      } else {
        sum := SumOverRight(t1, r1, t2, r2, sizes, i, j, sentinel);
      }
      sizes[i, j] := sum;
    }
    v := sizes[i, j];
  }

  /** The sum over the edges continuing from t1 edge i's to-node, each looked up as intSize(next, j, true). */
  method SumOverLeft(t1: Net, ghost r1: seq<nat>, t2: Net, ghost r2: seq<nat>, sizes: array2<int>,
                     i: nat, j: nat, sentinel: int) returns (sum: int)
    requires Acyclic(t1, r1) && Acyclic(t2, r2) && sentinel < 0
    requires i < |t1.from| && j < |t2.from| && !IntoLeaf(t1, i)
    requires TableMemo(t1, r1, t2, r2, sizes, sentinel)
    modifies sizes
    ensures TableMemo(t1, r1, t2, r2, sizes, sentinel)
    ensures sum == Common(t1, r1, i, t2, r2, j)
    ensures forall a, b :: 0 <= a < sizes.Length0 && 0 <= b < sizes.Length1 && old(sizes[a, b]) != sentinel ==>
              sizes[a, b] == old(sizes[a, b])
    decreases r1[i] + r2[j], 1
  {
    var n := t1.to[i];
    sum := 0;
    var k := 0;
    while k < |t1.out[n]|
      invariant 0 <= k <= |t1.out[n]|
      invariant TableMemo(t1, r1, t2, r2, sizes, sentinel)
      invariant sum == PairCount(BelowUpTo(t1, r1, i, k), Below(t2, r2, j))
      invariant forall a, b :: 0 <= a < sizes.Length0 && 0 <= b < sizes.Length1 && old(sizes[a, b]) != sentinel ==>
                  sizes[a, b] == old(sizes[a, b])
    {
      sum := AddLeft(t1, r1, t2, r2, sizes, i, j, k, sum, sentinel);
      k := k + 1;
    }
    assert Below(t1, r1, i) == BelowUpTo(t1, r1, i, |t1.out[n]|);
  }

  /** One step of SumOverLeft: the k-th edge leaving t1 edge i's to-node adds its share, unless it leads back. */
  method AddLeft(t1: Net, ghost r1: seq<nat>, t2: Net, ghost r2: seq<nat>, sizes: array2<int>,
                 i: nat, j: nat, k: nat, sum0: int, sentinel: int) returns (sum: int)
    requires Acyclic(t1, r1) && Acyclic(t2, r2) && sentinel < 0
    requires i < |t1.from| && j < |t2.from| && k < |t1.out[t1.to[i]]|
    requires TableMemo(t1, r1, t2, r2, sizes, sentinel)
    requires sum0 == PairCount(BelowUpTo(t1, r1, i, k), Below(t2, r2, j))
    modifies sizes
    ensures TableMemo(t1, r1, t2, r2, sizes, sentinel)
    ensures sum == PairCount(BelowUpTo(t1, r1, i, k + 1), Below(t2, r2, j))
    ensures forall a, b :: 0 <= a < sizes.Length0 && 0 <= b < sizes.Length1 && old(sizes[a, b]) != sentinel ==>
              sizes[a, b] == old(sizes[a, b])
    decreases r1[i] + r2[j], 0
  {
    var next := t1.out[t1.to[i]][k];
    ghost var part := if t1.to[next] == t1.from[i] then [] else Below(t1, r1, next);
    sum := sum0;
    if t1.to[next] != t1.from[i] {
      var v := IntSize(t1, r1, t2, r2, sizes, next, j, true, sentinel);
      sum := sum + v;
    }
    assert BelowUpTo(t1, r1, i, k + 1) == BelowUpTo(t1, r1, i, k) + part;
    PairCountAppendLeft(BelowUpTo(t1, r1, i, k), part, Below(t2, r2, j));
  }

  /** The sum over the edges continuing from t2 edge j's to-node, each looked up as intSize(next, i, false). */
  method SumOverRight(t1: Net, ghost r1: seq<nat>, t2: Net, ghost r2: seq<nat>, sizes: array2<int>,
                      i: nat, j: nat, sentinel: int) returns (sum: int)
    requires Acyclic(t1, r1) && Acyclic(t2, r2) && sentinel < 0
    requires i < |t1.from| && j < |t2.from| && !IntoLeaf(t2, j)
    requires TableMemo(t1, r1, t2, r2, sizes, sentinel)
    modifies sizes
    ensures TableMemo(t1, r1, t2, r2, sizes, sentinel)
    ensures sum == Common(t1, r1, i, t2, r2, j)
    ensures forall a, b :: 0 <= a < sizes.Length0 && 0 <= b < sizes.Length1 && old(sizes[a, b]) != sentinel ==>
              sizes[a, b] == old(sizes[a, b])
    decreases r1[i] + r2[j], 1
  {
    var n := t2.to[j];
    sum := 0;
    PairCountEmpty(Below(t1, r1, i));
    var k := 0;
    while k < |t2.out[n]|
      invariant 0 <= k <= |t2.out[n]|
      invariant TableMemo(t1, r1, t2, r2, sizes, sentinel)
      invariant sum == PairCount(Below(t1, r1, i), BelowUpTo(t2, r2, j, k))
      invariant forall a, b :: 0 <= a < sizes.Length0 && 0 <= b < sizes.Length1 && old(sizes[a, b]) != sentinel ==>
                  sizes[a, b] == old(sizes[a, b])
    {
      sum := AddRight(t1, r1, t2, r2, sizes, i, j, k, sum, sentinel);
      k := k + 1;
    }
    assert Below(t2, r2, j) == BelowUpTo(t2, r2, j, |t2.out[n]|);
  }

  /** One step of SumOverRight: the k-th edge leaving t2 edge j's to-node adds its share, unless it leads back. */
  method AddRight(t1: Net, ghost r1: seq<nat>, t2: Net, ghost r2: seq<nat>, sizes: array2<int>,
                  i: nat, j: nat, k: nat, sum0: int, sentinel: int) returns (sum: int)
    requires Acyclic(t1, r1) && Acyclic(t2, r2) && sentinel < 0
    requires i < |t1.from| && j < |t2.from| && k < |t2.out[t2.to[j]]|
    requires TableMemo(t1, r1, t2, r2, sizes, sentinel)
    requires sum0 == PairCount(Below(t1, r1, i), BelowUpTo(t2, r2, j, k))
    modifies sizes
    ensures TableMemo(t1, r1, t2, r2, sizes, sentinel)
    ensures sum == PairCount(Below(t1, r1, i), BelowUpTo(t2, r2, j, k + 1))
    ensures forall a, b :: 0 <= a < sizes.Length0 && 0 <= b < sizes.Length1 && old(sizes[a, b]) != sentinel ==>
              sizes[a, b] == old(sizes[a, b])
    decreases r1[i] + r2[j], 0
  {
    var next := t2.out[t2.to[j]][k];
    ghost var part := if t2.to[next] == t2.from[j] then [] else Below(t2, r2, next);
    sum := sum0;
    if t2.to[next] != t2.from[j] {
      var v := IntSize(t1, r1, t2, r2, sizes, next, i, false, sentinel);
      sum := sum + v;
    } else {
      PairCountEmpty(Below(t1, r1, i));
    }
    assert BelowUpTo(t2, r2, j, k + 1) == BelowUpTo(t2, r2, j, k) + part;
    PairCountAppendRight(Below(t1, r1, i), BelowUpTo(t2, r2, j, k), part);
  }
}
