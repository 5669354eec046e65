/**
 * QtTree: the quartet code's unrooted tree.  Building one (init) numbers the
 * directed edges, computes every edge's subtree size, sorts the leaves by
 * name and numbers them in that order.  calcInterSizes fills, for two trees,
 * the table of how many leaves each rooted subtree of the first shares with
 * each rooted subtree of the second: the cells for pairs of single-direction
 * edges come from Edge.intSize, and the other three quadrants from
 * complement identities.  The minimum and maximum inner-node degree are
 * computed on first request and cached.
 *
 * Nodes, edges, leaves and inner nodes are identified by position: an edge's
 * id is its index in the edge array, a leaf's id its index in the sorted leaf
 * array, an inner node's placement its index in inodes.
 */
module QtTree {
  import opened Wrappers
  import opened QtLeaf
  import opened QtEdge
  import QtDistance

  /** Java's Integer and Short bounds. */
  const IntMax: int := 2147483647
  const IntMin: int := -2147483648
  const ShortMax: int := 32767
  const ShortMin: int := -32768

  // ------------------------------------------------------------ complements

  /** Every name occurs at most once. */
  ghost predicate Distinct(l: seq<string>)
  {
    forall x :: multiset(l)[x] <= 1
  }

  /** The names the two lists have in common. */
  ghost function SharedNames(xs: seq<string>, ys: seq<string>): set<string>
  {
    set x | x in xs && x in ys
  }

  /** For lists without repeated names, the pair count is the number of names they share. */
  lemma {:induction false} PairCountIsShared(xs: seq<string>, ys: seq<string>)
    requires Distinct(xs) && Distinct(ys)
    ensures PairCount(xs, ys) == |SharedNames(xs, ys)|
    decreases |xs|
  {
    if |xs| > 0 {
      var init := xs[..|xs| - 1];
      var x := xs[|xs| - 1];
      assert xs == init + [x];
      assert multiset(xs) == multiset(init) + multiset{x};
      assert x !in init by {
        assert multiset(xs)[x] == multiset(init)[x] + 1;
      }
      forall y
        ensures multiset(init)[y] <= 1
      {
        assert multiset(init)[y] <= multiset(xs)[y];
      }
      PairCountIsShared(init, ys);
      if x in ys {
        assert multiset(ys)[x] == 1;
        assert SharedNames(xs, ys) == SharedNames(init, ys) + {x};
      } else {
        assert SharedNames(xs, ys) == SharedNames(init, ys);
      }
    }
  }

  /** Counting pairs against a list depends only on that list's multiset. */
  lemma {:induction false} PairCountRightMultiset(xs: seq<string>, ys: seq<string>, zs: seq<string>)
    requires multiset(ys) == multiset(zs)
    ensures PairCount(xs, ys) == PairCount(xs, zs)
    decreases |xs|
  {
    if |xs| > 0 {
      PairCountRightMultiset(xs[..|xs| - 1], ys, zs);
    }
  }

  /** Counting pairs against one name counts its occurrences. */
  lemma {:induction false} PairCountOne(xs: seq<string>, y: string)
    ensures PairCount(xs, [y]) == multiset(xs)[y]
    decreases |xs|
  {
    if |xs| > 0 {
      PairCountOne(xs[..|xs| - 1], y);
      assert xs == xs[..|xs| - 1] + [xs[|xs| - 1]];
    }
  }

  /** The same count, summed over the right-hand list instead. */
  function PairCountByRight(xs: seq<string>, ys: seq<string>): nat
    decreases |ys|
  {
    if |ys| == 0 then 0 else PairCountByRight(xs, ys[..|ys| - 1]) + multiset(xs)[ys[|ys| - 1]]
  }

  lemma {:induction false} PairCountSymmetric(xs: seq<string>, ys: seq<string>)
    ensures PairCount(xs, ys) == PairCountByRight(xs, ys)
    decreases |ys|
  {
    if |ys| == 0 {
      PairCountEmpty(xs);
    } else {
      var init := ys[..|ys| - 1];
      assert ys == init + [ys[|ys| - 1]];
      PairCountAppendRight(xs, init, [ys[|ys| - 1]]);
      PairCountOne(xs, ys[|ys| - 1]);
      PairCountSymmetric(xs, init);
    }
  }

  lemma {:induction false} PairCountByRightMultiset(xs: seq<string>, zs: seq<string>, ys: seq<string>)
    requires multiset(xs) == multiset(zs)
    ensures PairCountByRight(xs, ys) == PairCountByRight(zs, ys)
    decreases |ys|
  {
    if |ys| > 0 {
      PairCountByRightMultiset(xs, zs, ys[..|ys| - 1]);
    }
  }

  /** Counting pairs depends only on the multiset of the left-hand list too. */
  lemma PairCountLeftMultiset(xs: seq<string>, zs: seq<string>, ys: seq<string>)
    requires multiset(xs) == multiset(zs)
    ensures PairCount(xs, ys) == PairCount(zs, ys)
  {
    PairCountSymmetric(xs, ys);
    PairCountSymmetric(zs, ys);
    PairCountByRightMultiset(xs, zs, ys);
  }

  /** Against a list holding each of xs's names exactly once, every name of xs makes one pair. */
  lemma {:induction false} PairCountAll(xs: seq<string>, l: seq<string>)
    requires forall k :: 0 <= k < |xs| ==> multiset(l)[xs[k]] == 1
    ensures PairCount(xs, l) == |xs|
    decreases |xs|
  {
    if |xs| > 0 {
      PairCountAll(xs[..|xs| - 1], l);
    }
  }

  /** Against a list split into b and b', the pairs with b' are those the pairs with b leave over. */
  lemma ShareWithRest(a: seq<string>, b: seq<string>, b': seq<string>, l: seq<string>)
    requires multiset(b) + multiset(b') == multiset(l)
    requires forall k :: 0 <= k < |a| ==> multiset(l)[a[k]] == 1
    ensures PairCount(a, b') == |a| - PairCount(a, b)
  {
    PairCountAppendRight(a, b, b');
    PairCountRightMultiset(a, b + b', l);
    PairCountAll(a, l);
  }

  /** The same on the left: a list split into a and a' against b. */
  lemma RestShares(a: seq<string>, a': seq<string>, b: seq<string>, l: seq<string>)
    requires multiset(a) + multiset(a') == multiset(l)
    requires forall k :: 0 <= k < |b| ==> multiset(l)[b[k]] == 1
    ensures PairCount(a', b) == |b| - PairCount(a, b)
  {
    PairCountAppendLeft(a, a', b);
    PairCountLeftMultiset(a + a', l, b);
    PairCountSymmetric(l, b);
    PairCountByRightAll(l, b);
  }

  /** A part of a list without repeated names holds only names that list has exactly once. */
  lemma PartOnce(a: seq<string>, a': seq<string>, l: seq<string>, l': seq<string>)
    requires multiset(a) + multiset(a') == multiset(l) && multiset(l) == multiset(l') && Distinct(l)
    ensures forall k :: 0 <= k < |a| ==> multiset(l')[a[k]] == 1
    ensures forall k :: 0 <= k < |a'| ==> multiset(l')[a'[k]] == 1
    ensures |a| + |a'| == |l|
  {
    assert |multiset(a)| + |multiset(a')| == |multiset(l)|;
    forall k | 0 <= k < |a|
      ensures multiset(l')[a[k]] == 1
    {
      assert a[k] in multiset(a);
    }
    forall k | 0 <= k < |a'|
      ensures multiset(l')[a'[k]] == 1
    {
      assert a'[k] in multiset(a');
    }
  }

  /**
   * The complement identities of calcInterSizes.  When A and A' split the
   * leaves of one tree, B and B' split those of the other, both trees have
   * the same leaves and no name repeats, the shared counts of the
   * complements follow from |A|, |B| and the shared count of A and B.
   */
  lemma Complement(a: seq<string>, a': seq<string>, b: seq<string>, b': seq<string>, l1: seq<string>, l2: seq<string>)
    requires multiset(a) + multiset(a') == multiset(l1)
    requires multiset(b) + multiset(b') == multiset(l2)
    requires multiset(l1) == multiset(l2) && Distinct(l1)
    ensures PairCount(a, b') == |a| - PairCount(a, b)
    ensures PairCount(a', b) == |b| - PairCount(a, b)
    ensures PairCount(a', b') == |l1| - |a| - |b| + PairCount(a, b)
  {
    PartOnce(a, a', l1, l2);
    PartOnce(b, b', l2, l1);
    ShareWithRest(a, b, b', l2);
    RestShares(a, a', b, l1);
    ShareWithRest(a', b, b', l2);
  }

  /** Summed over the right-hand list, a list holding each of its names exactly once gives one pair per name. */
  lemma {:induction false} PairCountByRightAll(l: seq<string>, ys: seq<string>)
    requires forall k :: 0 <= k < |ys| ==> multiset(l)[ys[k]] == 1
    ensures PairCountByRight(l, ys) == |ys|
    decreases |ys|
  {
    if |ys| > 0 {
      PairCountByRightAll(l, ys[..|ys| - 1]);
    }
  }

  // ------------------------------------------------------------ leaf order

  /** Each leaf name comes no later than the next one in compareTo order. */
  predicate NamesSorted(s: seq<string>)
  {
    forall k :: 0 <= k < |s| - 1 ==> Compare(s[k], s[k + 1]) <= 0
  }

  /** Two neighbours of a sorted list without repeats are strictly ordered. */
  lemma NeighboursStrict(s: seq<string>, k: nat)
    requires NamesSorted(s) && Distinct(s) && k + 1 < |s|
    ensures Compare(s[k], s[k + 1]) < 0
  {
    assert s == s[..k] + [s[k], s[k + 1]] + s[k + 2..];
    assert multiset([s[k], s[k + 1]]) <= multiset(s);
    assert multiset([s[k], s[k + 1]])[s[k]] <= 1;
    CompareZero(s[k], s[k + 1]);
  }

  lemma {:induction false} StrictFrom(s: seq<string>, k: nat, m: nat)
    requires NamesSorted(s) && Distinct(s) && k < m < |s|
    ensures Compare(s[k], s[m]) < 0
    decreases m - k
  {
    NeighboursStrict(s, m - 1);
    if k < m - 1 {
      StrictFrom(s, k, m - 1);
      CompareTransitive(s[k], s[m - 1], s[m]);
    }
  }

  /** With no repeated name, the sorted leaf array is strictly increasing, as pruneTrees expects. */
  lemma SortedIsStrict(s: seq<string>)
    requires NamesSorted(s) && Distinct(s)
    ensures QtDistance.StrictlySorted(s)
  {
    forall k, m | 0 <= k < m < |s|
      ensures Compare(s[k], s[m]) < 0
    {
      StrictFrom(s, k, m);
    }
  }

  /**
   * Arrays.sort on the leaves, ordered by Leaf.compareTo.  Names that compare
   * equal are equal, so every sorting algorithm gives this same array.
   */
  method SortNames(a: array<string>)
    modifies a
    ensures NamesSorted(a[..]) && multiset(a[..]) == old(multiset(a[..]))
  {
    var i := 0;
    while i < a.Length
      invariant 0 <= i <= a.Length
      invariant forall k :: 0 <= k < i - 1 ==> Compare(a[k], a[k + 1]) <= 0
      invariant multiset(a[..]) == old(multiset(a[..]))
    {
      InsertLast(a, i);
      i := i + 1;
    }
  }

  /** One insertion step: a[i] moves left past the names that come after it. */
  method InsertLast(a: array<string>, i: nat)
    requires i < a.Length
    requires forall k :: 0 <= k < i - 1 ==> Compare(a[k], a[k + 1]) <= 0
    modifies a
    ensures forall k :: 0 <= k < i ==> Compare(a[k], a[k + 1]) <= 0
    ensures multiset(a[..]) == old(multiset(a[..]))
  {
    var j := i;
    while j > 0 && Compare(a[j - 1], a[j]) > 0
      invariant 0 <= j <= i
      invariant forall k :: 0 <= k < i && k != j - 1 && k != j ==> Compare(a[k], a[k + 1]) <= 0
      invariant j < i ==> Compare(a[j], a[j + 1]) < 0
      invariant 0 < j < i ==> Compare(a[j - 1], a[j + 1]) <= 0
      invariant multiset(a[..]) == old(multiset(a[..]))
    {
      CompareFlips(a[j], a[j - 1]);
      SwapDown(a, j);
      j := j - 1;
    }
  }

  /** Exchange a[j - 1] and a[j]. */
  method SwapDown(a: array<string>, j: nat)
    requires 0 < j < a.Length
    modifies a
    ensures a[j - 1] == old(a[j]) && a[j] == old(a[j - 1])
    ensures forall k :: 0 <= k < a.Length && k != j - 1 && k != j ==> a[k] == old(a[k])
    ensures multiset(a[..]) == old(multiset(a[..]))
  {
    a[j - 1], a[j] := a[j], a[j - 1];
  }

  // ------------------------------------------------------------ degrees

  function Lesser(a: int, b: int): int { if a < b then a else b }
  function Greater(a: int, b: int): int { if a > b then a else b }

  /** The numbers of edges of the inner nodes, in inodes order. */
  function Degrees(g: Net, inodes: seq<nat>): (ds: seq<int>)
    requires forall k :: 0 <= k < |inodes| ==> inodes[k] < |g.out|
    ensures |ds| == |inodes| && forall k :: 0 <= k < |ds| ==> ds[k] == |g.out[inodes[k]]|
  {
    seq(|inodes|, k requires 0 <= k < |inodes| => |g.out[inodes[k]]|)
  }

  /** Math.min folded over the degrees, starting from m. */
  function MinFrom(m: int, ds: seq<int>): int
  {
    if |ds| == 0 then m else Lesser(MinFrom(m, ds[..|ds| - 1]), ds[|ds| - 1])
  }

  /** Math.max folded over the degrees, starting from m. */
  function MaxFrom(m: int, ds: seq<int>): int
  {
    if |ds| == 0 then m else Greater(MaxFrom(m, ds[..|ds| - 1]), ds[|ds| - 1])
  }

  /** The folded minimum is at most the start and every degree, and it is the start or one of them. */
  lemma {:induction false} MinFromIsLeast(m: int, ds: seq<int>)
    ensures MinFrom(m, ds) <= m && forall k :: 0 <= k < |ds| ==> MinFrom(m, ds) <= ds[k]
    ensures MinFrom(m, ds) == m || exists k :: 0 <= k < |ds| && MinFrom(m, ds) == ds[k]
  {
    if |ds| > 0 {
      var init := ds[..|ds| - 1];
      MinFromIsLeast(m, init);
      assert forall k :: 0 <= k < |init| ==> init[k] == ds[k];
    }
  }

  /** The folded maximum is at least the start and every degree, and it is the start or one of them. */
  lemma {:induction false} MaxFromIsGreatest(m: int, ds: seq<int>)
    ensures m <= MaxFrom(m, ds) && forall k :: 0 <= k < |ds| ==> ds[k] <= MaxFrom(m, ds)
    ensures MaxFrom(m, ds) == m || exists k :: 0 <= k < |ds| && MaxFrom(m, ds) == ds[k]
  {
    if |ds| > 0 {
      var init := ds[..|ds| - 1];
      MaxFromIsGreatest(m, init);
      assert forall k :: 0 <= k < |init| ==> init[k] == ds[k];
    }
  }

  // ------------------------------------------------------------ the tree

  /** onediredges: distinct edges, none the back edge of another. */
  ghost predicate OneWay(g: Net, od: seq<nat>)
  {
    |g.back| == |g.from| &&
    (forall p :: 0 <= p < |od| ==> od[p] < |g.from|) &&
    (forall p, q :: 0 <= p < q < |od| ==> od[p] != od[q]) &&
    (forall p, q :: 0 <= p < |od| && 0 <= q < |od| ==> od[p] != g.back[od[q]])
  }

  /** Sizes computed for every edge. */
  ghost predicate SizesDone(g: Net, rank: seq<nat>, s: seq<int>)
    requires Acyclic(g, rank)
  {
    |s| == |g.from| && forall e :: 0 <= e < |s| ==> s[e] == |Below(g, rank, e)|
  }

  /** Every positive cached size is its subtree size. */
  ghost predicate SizesKnown(g: Net, rank: seq<nat>, s: seq<int>)
    requires Acyclic(g, rank) && |s| == |g.from|
  {
    forall e :: 0 <= e < |s| && s[e] > 0 ==> s[e] == |Below(g, rank, e)|
  }

  /** The loop of init that calls setSize on every edge in id order. */
  method ComputeSizes(g: Net, ghost rank: seq<nat>, size: array<int>)
    requires Acyclic(g, rank) && size.Length == |g.from|
    requires SizesKnown(g, rank, size[..])
    modifies size
    ensures SizesDone(g, rank, size[..])
  {
    var e := 0;
    while e < size.Length
      invariant 0 <= e <= size.Length
      invariant SizesKnown(g, rank, size[..])
      invariant forall f :: 0 <= f < e ==> size[f] == |Below(g, rank, f)|
    {
      SetSize(g, rank, size, e);
      e := e + 1;
    }
  }

  datatype TreeFault = HandleIsLeaf

  class QTree {
    const net: Net
    ghost const rank: seq<nat>
    /** The node the tree is held by. */
    const handle: nat
    /** The leaf names, sorted. */
    const leaves: array<string>
    /** The subtree size of every directed edge. */
    const size: array<int>
    const inodes: seq<nat>
    const onedir: seq<nat>
    var mindeg: int
    var maxdeg: int

    ghost predicate Valid()
      reads this, leaves, size
    {
      Acyclic(net, rank) && Wired(net) && handle < |net.out| &&
      SizesDone(net, rank, size[..]) && NamesSorted(leaves[..]) &&
      (forall k :: 0 <= k < |inodes| ==> inodes[k] < |net.out|) &&
      OneWay(net, onedir) &&
      (mindeg == IntMax || mindeg == MinFrom(IntMax, Degrees(net, inodes))) &&
      (maxdeg == -1 || maxdeg == MaxFrom(-1, Degrees(net, inodes)))
    }

    /**
     * init, given what accumulate and getSingleDirEdges collect: the leaf
     * names, the inner nodes and the single-direction edges.  Every edge's
     * size starts at MIN_VALUE and is then computed; the leaves are sorted.
     */
    constructor (net: Net, ghost rank: seq<nat>, handle: nat, leafNames: seq<string>, inodes: seq<nat>, onedir: seq<nat>)
      requires Acyclic(net, rank) && Wired(net) && handle < |net.out|
      requires forall k :: 0 <= k < |inodes| ==> inodes[k] < |net.out|
      requires OneWay(net, onedir)
      ensures Valid()
      ensures this.net == net && this.rank == rank && this.handle == handle
      ensures this.inodes == inodes && this.onedir == onedir
      ensures multiset(leaves[..]) == multiset(leafNames)
      ensures mindeg == IntMax && maxdeg == -1
      ensures fresh(leaves) && fresh(size)
    {
      this.net := net;
      this.rank := rank;
      this.handle := handle;
      this.inodes := inodes;
      this.onedir := onedir;
      size := new int[|net.from|](_ => IntMin);
      leaves := new string[|leafNames|](k requires 0 <= k < |leafNames| => leafNames[k]);
      mindeg := IntMax;
      maxdeg := -1;
      new;
      assert leaves[..] == leafNames;
      ComputeSizes(net, rank, size);
      SortNames(leaves);
    }

    /** getMinDegree: the least number of edges of an inner node, computed once. */
    method GetMinDegree() returns (d: int)
      requires Valid()
      modifies this
      ensures Valid() && d == mindeg && maxdeg == old(maxdeg)
      ensures d == MinFrom(IntMax, Degrees(net, inodes))
    {
      if mindeg == IntMax {
        ghost var ds := Degrees(net, inodes);
        var i := 0;
        while i < |inodes|
          invariant 0 <= i <= |inodes|
          invariant mindeg == MinFrom(IntMax, ds[..i]) && maxdeg == old(maxdeg)
        {
          assert ds[..i + 1][..i] == ds[..i];
          mindeg := Lesser(mindeg, |net.out[inodes[i]]|);
          i := i + 1;
        }
        assert ds[..i] == ds;
      }
      d := mindeg;
    }

    /** getMaxDegree: the largest number of edges of an inner node, computed once. */
    method GetMaxDegree() returns (d: int)
      requires Valid()
      modifies this
      ensures Valid() && d == maxdeg && mindeg == old(mindeg)
      ensures d == MaxFrom(-1, Degrees(net, inodes))
    {
      if maxdeg < 0 {
        ghost var ds := Degrees(net, inodes);
        var i := 0;
        while i < |inodes|
          invariant 0 <= i <= |inodes|
          invariant maxdeg == MaxFrom(-1, ds[..i]) && mindeg == old(mindeg)
        {
          assert ds[..i + 1][..i] == ds[..i];
          maxdeg := Greater(maxdeg, |net.out[inodes[i]]|);
          i := i + 1;
        }
        assert ds[..i] == ds;
      }
      d := maxdeg;
    }

    /**
     * The body shared by calcInterSizes and calcInterSizesShort; sentinel is
     * the MIN_VALUE of the table's element type.  A tree held by a leaf is
     * refused.  Otherwise the table, one row per edge of this tree and one
     * column per edge of other, starts at the sentinel; the 'down-down'
     * cells of the single-direction edges go through intSize, and the other
     * three quadrants follow from them.
     */
    method FillInterSizes(other: QTree, sentinel: int) returns (r: Result<array2<int>, TreeFault>)
      requires Valid() && other.Valid() && sentinel < 0
      ensures r.Failure? <==> net.leafName[handle].Some? || other.net.leafName[other.handle].Some?
      ensures r.Success? ==> fresh(r.value) && r.value.Length0 == |net.from| && r.value.Length1 == |other.net.from|
      ensures r.Success? ==> Quadrants(this, other, r.value)
      ensures r.Success? && SameLeaves(this, other) ==> AllShared(this, other, r.value)
    {
      if net.leafName[handle].Some? || other.net.leafName[other.handle].Some? {
        return Failure(HandleIsLeaf);
      }
      var tab := new int[|net.from|, |other.net.from|]((a, b) => sentinel);
      FillDownDown(this, other, tab, sentinel);
      PairableCrossable(this, other);
      FillQuadrants(this, other, tab);
      FormulasGiveQuadrants(this, other, tab);
      if SameLeaves(this, other) {
        QuadrantsGiveShared(this, other, tab);
      }
      return Success(tab);
    }

    /** calcInterSizes: the int table, with Integer.MIN_VALUE as the sentinel. */
    method CalcInterSizes(other: QTree) returns (r: Result<array2<int>, TreeFault>)
      requires Valid() && other.Valid()
      ensures r.Failure? <==> net.leafName[handle].Some? || other.net.leafName[other.handle].Some?
      ensures r.Success? ==> fresh(r.value) && r.value.Length0 == |net.from| && r.value.Length1 == |other.net.from|
      ensures r.Success? ==> Quadrants(this, other, r.value)
      ensures r.Success? && SameLeaves(this, other) ==> AllShared(this, other, r.value)
    {
      r := FillInterSizes(other, IntMin);
    }

    /**
     * calcInterSizesShort: the short table, with Short.MIN_VALUE as the
     * sentinel, for trees whose every stored value fits in 16 bits.
     */
    method CalcInterSizesShort(other: QTree) returns (r: Result<array2<int>, TreeFault>)
      requires Valid() && other.Valid() && FitsShort(this, other)
      ensures r.Failure? <==> net.leafName[handle].Some? || other.net.leafName[other.handle].Some?
      ensures r.Success? ==> fresh(r.value) && r.value.Length0 == |net.from| && r.value.Length1 == |other.net.from|
      ensures r.Success? ==> Quadrants(this, other, r.value)
      ensures r.Success? && SameLeaves(this, other) ==> AllShared(this, other, r.value)
    {
      r := FillInterSizes(other, ShortMin);
    }
  }

  /** Every intersection size, and every quadrant value derived from one, lies within the range of a short. */
  ghost predicate FitsShort(t1: QTree, t2: QTree)
    requires t1.Valid() && t2.Valid()
    reads t1, t1.leaves, t1.size, t2, t2.leaves, t2.size
  {
    (forall a, b :: 0 <= a < |t1.net.from| && 0 <= b < |t2.net.from| ==>
       Common(t1.net, t1.rank, a, t2.net, t2.rank, b) <= ShortMax) &&
    (forall a, b :: 0 <= a < |t1.net.from| && 0 <= b < |t2.net.from| ==>
       var c := Common(t1.net, t1.rank, a, t2.net, t2.rank, b);
       ShortMin <= t1.leaves.Length - t1.size[a] - t2.size[b] + c <= ShortMax &&
       ShortMin <= t1.size[a] - c <= ShortMax && ShortMin <= t2.size[b] - c <= ShortMax)
  }

  // ------------------------------------------------------------ intersection sizes

  /** The two trees a table is filled for, with what calcInterSizes relies on. */
  ghost predicate Pairable(t1: QTree, t2: QTree)
  {
    Acyclic(t1.net, t1.rank) && Acyclic(t2.net, t2.rank) && Wired(t1.net) && Wired(t2.net) &&
    OneWay(t1.net, t1.onedir) && OneWay(t2.net, t2.onedir) &&
    t1.size.Length == |t1.net.from| && t2.size.Length == |t2.net.from|
  }

  /**
   * The four cells calcInterSizes writes for the single-direction edges i of
   * t1 and j of t2: [i][j] is their intersection size c; up-up [back i][back j]
   * is n - size_i - size_j + c with n the leaf count of t1; down-up
   * [i][back j] is size_i - c; up-down [back i][j] is size_j - c.
   */
  ghost predicate QuadOk(t1: QTree, t2: QTree, tab: array2<int>, i: nat, j: nat)
    requires Pairable(t1, t2) && tab.Length0 == |t1.net.from| && tab.Length1 == |t2.net.from|
    requires i < |t1.net.from| && j < |t2.net.from|
    reads tab, t1.size, t2.size
  {
    var bi := t1.net.back[i];
    var bj := t2.net.back[j];
    var c := Common(t1.net, t1.rank, i, t2.net, t2.rank, j);
    tab[i, j] == c &&
    tab[bi, bj] == t1.leaves.Length - t1.size[i] - t2.size[j] + c &&
    tab[i, bj] == t1.size[i] - c &&
    tab[bi, j] == t2.size[j] - c
  }

  ghost predicate Quadrants(t1: QTree, t2: QTree, tab: array2<int>)
    requires Pairable(t1, t2) && tab.Length0 == |t1.net.from| && tab.Length1 == |t2.net.from|
    reads tab, t1.size, t2.size
  {
    forall p, q :: 0 <= p < |t1.onedir| && 0 <= q < |t2.onedir| ==> QuadOk(t1, t2, tab, t1.onedir[p], t2.onedir[q])
  }

  /** Each single-direction edge and its back edge split the tree's leaves between them. */
  ghost predicate Splits(t: QTree)
    requires Acyclic(t.net, t.rank) && OneWay(t.net, t.onedir)
    reads t.leaves
  {
    forall p :: 0 <= p < |t.onedir| ==>
      multiset(Below(t.net, t.rank, t.onedir[p])) + multiset(Below(t.net, t.rank, t.net.back[t.onedir[p]])) == multiset(t.leaves[..])
  }

  /** Both trees are split by their edges, they have the same leaves, and no name repeats. */
  ghost predicate SameLeaves(t1: QTree, t2: QTree)
    requires Pairable(t1, t2)
    reads t1.leaves, t2.leaves
  {
    Splits(t1) && Splits(t2) && multiset(t1.leaves[..]) == multiset(t2.leaves[..]) && Distinct(t1.leaves[..])
  }

  /** All four cells of every pair of single-direction edges hold the intersection sizes of their edges. */
  ghost predicate AllShared(t1: QTree, t2: QTree, tab: array2<int>)
    requires Pairable(t1, t2) && tab.Length0 == |t1.net.from| && tab.Length1 == |t2.net.from|
    reads tab
  {
    forall p, q :: 0 <= p < |t1.onedir| && 0 <= q < |t2.onedir| ==>
      var i := t1.onedir[p];
      var j := t2.onedir[q];
      var bi := t1.net.back[i];
      var bj := t2.net.back[j];
      tab[i, j] == Common(t1.net, t1.rank, i, t2.net, t2.rank, j) &&
      tab[bi, bj] == Common(t1.net, t1.rank, bi, t2.net, t2.rank, bj) &&
      tab[i, bj] == Common(t1.net, t1.rank, i, t2.net, t2.rank, bj) &&
      tab[bi, j] == Common(t1.net, t1.rank, bi, t2.net, t2.rank, j)
  }

  /** The 'down-down' row of single-direction edge p of t1: every cell still at the sentinel is computed. */
  method DownRow(t1: QTree, t2: QTree, tab: array2<int>, p: nat, sentinel: int)
    requires Pairable(t1, t2) && sentinel < 0 && p < |t1.onedir|
    requires TableMemo(t1.net, t1.rank, t2.net, t2.rank, tab, sentinel)
    modifies tab
    ensures TableMemo(t1.net, t1.rank, t2.net, t2.rank, tab, sentinel)
    ensures forall q :: 0 <= q < |t2.onedir| ==> tab[t1.onedir[p], t2.onedir[q]] != sentinel
    ensures forall a, b :: 0 <= a < tab.Length0 && 0 <= b < tab.Length1 && old(tab[a, b]) != sentinel ==>
              tab[a, b] == old(tab[a, b])
  {
    var i := t1.onedir[p];
    var q := 0;
    while q < |t2.onedir|
      invariant 0 <= q <= |t2.onedir|
      invariant TableMemo(t1.net, t1.rank, t2.net, t2.rank, tab, sentinel)
      invariant forall q' :: 0 <= q' < q ==> tab[i, t2.onedir[q']] != sentinel
      invariant forall a, b :: 0 <= a < tab.Length0 && 0 <= b < tab.Length1 && old(tab[a, b]) != sentinel ==>
                  tab[a, b] == old(tab[a, b])
    {
      var j := t2.onedir[q];
      if tab[i, j] == sentinel {
        var _ := IntSize(t1.net, t1.rank, t2.net, t2.rank, tab, i, j, true, sentinel);
      }
      q := q + 1;
    }
  }

  /** All 'down-down' cells: each pair of single-direction edges gets its intersection size. */
  method FillDownDown(t1: QTree, t2: QTree, tab: array2<int>, sentinel: int)
    requires Pairable(t1, t2) && sentinel < 0
    requires TableMemo(t1.net, t1.rank, t2.net, t2.rank, tab, sentinel)
    modifies tab
    ensures TableMemo(t1.net, t1.rank, t2.net, t2.rank, tab, sentinel)
    ensures forall p, q :: 0 <= p < |t1.onedir| && 0 <= q < |t2.onedir| ==>
              tab[t1.onedir[p], t2.onedir[q]] == Common(t1.net, t1.rank, t1.onedir[p], t2.net, t2.rank, t2.onedir[q])
  {
    var p := 0;
    while p < |t1.onedir|
      invariant 0 <= p <= |t1.onedir|
      invariant TableMemo(t1.net, t1.rank, t2.net, t2.rank, tab, sentinel)
      invariant forall p', q :: 0 <= p' < p && 0 <= q < |t2.onedir| ==> tab[t1.onedir[p'], t2.onedir[q]] != sentinel
    {
      DownRow(t1, t2, tab, p, sentinel);
      p := p + 1;
    }
  }

  /** Back edges pair up, the single-direction edges are as OneWay says, and every edge has a size. */
  ghost predicate Crossable(t1: QTree, t2: QTree)
  {
    |t1.net.back| == |t1.net.from| && |t2.net.back| == |t2.net.from| &&
    (forall e :: 0 <= e < |t1.net.from| ==> t1.net.back[e] < |t1.net.from| && t1.net.back[t1.net.back[e]] == e) &&
    (forall e :: 0 <= e < |t2.net.from| ==> t2.net.back[e] < |t2.net.from| && t2.net.back[t2.net.back[e]] == e) &&
    OneWay(t1.net, t1.onedir) && OneWay(t2.net, t2.onedir) &&
    t1.size.Length == |t1.net.from| && t2.size.Length == |t2.net.from|
  }

  lemma PairableCrossable(t1: QTree, t2: QTree)
    requires Pairable(t1, t2)
    ensures Crossable(t1, t2)
  {
  }

  /** The three quadrant cells of i and j, computed from the 'down-down' cell [i][j]. */
  ghost predicate QuadFormula(t1: QTree, t2: QTree, tab: array2<int>, i: nat, j: nat)
    requires Crossable(t1, t2) && tab.Length0 == |t1.net.from| && tab.Length1 == |t2.net.from|
    requires i < |t1.net.from| && j < |t2.net.from|
    reads tab, t1.size, t2.size
  {
    var bi := t1.net.back[i];
    var bj := t2.net.back[j];
    tab[bi, bj] == t1.leaves.Length - t1.size[i] - t2.size[j] + tab[i, j] &&
    tab[i, bj] == t1.size[i] - tab[i, j] &&
    tab[bi, j] == t2.size[j] - tab[i, j]
  }

  /** The other three quadrants for single-direction edge p of t1, against every one of t2. */
  method QuadRow(t1: QTree, t2: QTree, tab: array2<int>, p: nat)
    requires Crossable(t1, t2) && tab.Length0 == |t1.net.from| && tab.Length1 == |t2.net.from|
    requires p < |t1.onedir|
    modifies tab
    ensures forall q :: 0 <= q < |t2.onedir| ==> QuadFormula(t1, t2, tab, t1.onedir[p], t2.onedir[q])
    ensures forall a, b :: 0 <= a < tab.Length0 && 0 <= b < tab.Length1 && a != t1.onedir[p] && a != t1.net.back[t1.onedir[p]] ==>
              tab[a, b] == old(tab[a, b])
    ensures forall q :: 0 <= q < |t2.onedir| ==> tab[t1.onedir[p], t2.onedir[q]] == old(tab[t1.onedir[p], t2.onedir[q]])
  {
    var i := t1.onedir[p];
    var bi := t1.net.back[i];
    var q := 0;
    while q < |t2.onedir|
      invariant 0 <= q <= |t2.onedir|
      invariant forall q' :: 0 <= q' < q ==> QuadFormula(t1, t2, tab, i, t2.onedir[q'])
      invariant forall a, b :: 0 <= a < tab.Length0 && 0 <= b < tab.Length1 && a != i && a != bi ==>
                  tab[a, b] == old(tab[a, b])
      invariant forall q' :: 0 <= q' < |t2.onedir| ==> tab[i, t2.onedir[q']] == old(tab[i, t2.onedir[q']])
    {
      var j := t2.onedir[q];
      var bj := t2.net.back[j];
      tab[bi, bj] := t1.leaves.Length - t1.size[i] - t2.size[j] + tab[i, j];
      tab[i, bj] := t1.size[i] - tab[i, j];
      tab[bi, j] := t2.size[j] - tab[i, j];
      forall q' | 0 <= q' < q
        ensures QuadFormula(t1, t2, tab, i, t2.onedir[q'])
      {
        var j' := t2.onedir[q'];
        assert t2.net.back[t2.net.back[j']] == j' && t2.net.back[bj] == j;
        assert j' != j && j' != bj && t2.net.back[j'] != j && t2.net.back[j'] != bj;
      }
      q := q + 1;
    }
  }

  /** The quadrant loop of calcInterSizes, row by row; the 'down-down' cells are only read. */
  method FillQuadrants(t1: QTree, t2: QTree, tab: array2<int>)
    requires Crossable(t1, t2) && tab.Length0 == |t1.net.from| && tab.Length1 == |t2.net.from|
    modifies tab
    ensures forall p, q :: 0 <= p < |t1.onedir| && 0 <= q < |t2.onedir| ==>
              QuadFormula(t1, t2, tab, t1.onedir[p], t2.onedir[q]) &&
              tab[t1.onedir[p], t2.onedir[q]] == old(tab[t1.onedir[p], t2.onedir[q]])
  {
    var p := 0;
    while p < |t1.onedir|
      invariant 0 <= p <= |t1.onedir|
      invariant forall p', q :: 0 <= p' < p && 0 <= q < |t2.onedir| ==> QuadFormula(t1, t2, tab, t1.onedir[p'], t2.onedir[q])
      invariant forall p', q :: 0 <= p' < |t1.onedir| && 0 <= q < |t2.onedir| ==>
                  tab[t1.onedir[p'], t2.onedir[q]] == old(tab[t1.onedir[p'], t2.onedir[q]])
    {
      ghost var i := t1.onedir[p];
      ghost var bi := t1.net.back[i];
      QuadRow(t1, t2, tab, p);
      forall p', q | 0 <= p' < p && 0 <= q < |t2.onedir|
        ensures QuadFormula(t1, t2, tab, t1.onedir[p'], t2.onedir[q])
      {
        var i' := t1.onedir[p'];
        assert t1.net.back[t1.net.back[i']] == i' && t1.net.back[bi] == i;
        assert i' != i && i' != bi && t1.net.back[i'] != i && t1.net.back[i'] != bi;
      }
      p := p + 1;
    }
  }

  /** Cells that hold the intersection sizes and the quadrant formulas make the Quadrants of the table. */
  lemma FormulasGiveQuadrants(t1: QTree, t2: QTree, tab: array2<int>)
    requires Pairable(t1, t2) && tab.Length0 == |t1.net.from| && tab.Length1 == |t2.net.from|
    requires forall p, q :: 0 <= p < |t1.onedir| && 0 <= q < |t2.onedir| ==>
               tab[t1.onedir[p], t2.onedir[q]] == Common(t1.net, t1.rank, t1.onedir[p], t2.net, t2.rank, t2.onedir[q])
    requires forall p, q :: 0 <= p < |t1.onedir| && 0 <= q < |t2.onedir| ==>
               QuadFormula(t1, t2, tab, t1.onedir[p], t2.onedir[q])
    ensures Quadrants(t1, t2, tab)
  {
  }

  /**
   * When the edges split the leaves of both trees and the trees have the
   * same leaves, the quadrant formulas give exactly the intersection sizes
   * of the back edges.
   */
  lemma QuadrantsGiveShared(t1: QTree, t2: QTree, tab: array2<int>)
    requires Pairable(t1, t2) && tab.Length0 == |t1.net.from| && tab.Length1 == |t2.net.from|
    requires SizesDone(t1.net, t1.rank, t1.size[..]) && SizesDone(t2.net, t2.rank, t2.size[..])
    requires Quadrants(t1, t2, tab) && SameLeaves(t1, t2)
    ensures AllShared(t1, t2, tab)
  {
    forall p, q | 0 <= p < |t1.onedir| && 0 <= q < |t2.onedir|
      ensures var i := t1.onedir[p]; var j := t2.onedir[q];
              var bi := t1.net.back[i]; var bj := t2.net.back[j];
              tab[i, j] == Common(t1.net, t1.rank, i, t2.net, t2.rank, j) &&
              tab[bi, bj] == Common(t1.net, t1.rank, bi, t2.net, t2.rank, bj) &&
              tab[i, bj] == Common(t1.net, t1.rank, i, t2.net, t2.rank, bj) &&
              tab[bi, j] == Common(t1.net, t1.rank, bi, t2.net, t2.rank, j)
    {
      var i := t1.onedir[p];
      var j := t2.onedir[q];
      assert QuadOk(t1, t2, tab, i, j);
      assert t1.size[i] == |Below(t1.net, t1.rank, i)| && t2.size[j] == |Below(t2.net, t2.rank, j)|;
      Complement(Below(t1.net, t1.rank, i), Below(t1.net, t1.rank, t1.net.back[i]),
                 Below(t2.net, t2.rank, j), Below(t2.net, t2.rank, t2.net.back[j]),
                 t1.leaves[..], t2.leaves[..]);
    }
  }
}
