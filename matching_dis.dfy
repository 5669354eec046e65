/**
 * MatchingDis: the stand-alone matching-distance program for two unrooted
 * binary trees on the same leaves.  Each tree lives in one Ptree record: the
 * parent and child links of every node id and, per node, a 0/1 vector over the
 * leaves standing for the bipartition that the edge above the node induces.
 *
 * Node ids: leaves are 0 .. n-1, the root is n, inner nodes are n+1 .. 2n-2.
 * The root carries two children although the tree is unrooted, so its two
 * edges stand for one bipartition; the matrix skips one of them (the inner
 * child of the root, "spe").
 */
module MatchingDis {
  import LapSolver

  /** The record one tree is kept in: links by node id (-1 for none) and one vector per node. */
  class Ptree {
    var leafNumber: int
    const parent: array<int>
    const lchild: array<int>
    const rchild: array<int>
    const edge: array2<int>

    /** The arrays share one capacity, and the vector matrix is square. */
    ghost predicate Valid()
      reads this
    {
      && parent.Length == lchild.Length == rchild.Length == edge.Length0 == edge.Length1
      && parent != lchild && parent != rchild && lchild != rchild
    }

    /** A record with room for maxLeaf node ids. */
    constructor (maxLeaf: nat)
      ensures Valid() && leafNumber == 0 && parent.Length == maxLeaf
      ensures fresh(parent) && fresh(lchild) && fresh(rchild) && fresh(edge)
    {
      leafNumber := 0;
      parent := new int[maxLeaf];
      lchild := new int[maxLeaf];
      rchild := new int[maxLeaf];
      edge := new int[maxLeaf, maxLeaf];
    }

    /**
     * pttree: fills the vector of every node below node.  A childless node
     * m != 0 gets the indicator of m, node 0 gets its complement, and an
     * inner node the sum modulo 2 of its children's vectors.
     */
    method PtTree(node: int, ghost rank: seq<nat>)
      requires Valid() && Ranked(lchild[..], rchild[..], rank) && 0 <= node < lchild.Length
      requires 0 <= leafNumber <= edge.Length1
      modifies edge
      ensures Filled(lchild[..], rchild[..], rank, leafNumber, node, old(LapSolver.Rows(edge)), LapSolver.Rows(edge))
      decreases rank[node]
    {
      ghost var l, r := lchild[..], rchild[..];
      ghost var s0 := LapSolver.Rows(edge);
      if lchild[node] == -1 && rchild[node] == -1 {
        var v := if node != 0 then 0 else 1;
        for i := 0 to leafNumber
          invariant forall m, j :: 0 <= m < edge.Length0 && 0 <= j < edge.Length1 ==>
            edge[m, j] == (if m == node && j < i then v else s0[m][j])
        {
          edge[node, i] := v;
        }
        edge[node, node] := 1 - v;
        LeafFilled(l, r, rank, leafNumber, node, s0, LapSolver.Rows(edge));
      } else {
        assert l[node] == lchild[node] && r[node] == rchild[node];
        if lchild[node] != -1 {
          PtTree(lchild[node], rank);
        }
        ghost var s1 := LapSolver.Rows(edge);
        if rchild[node] != -1 {
          PtTree(rchild[node], rank);
        }
        ghost var s2 := LapSolver.Rows(edge);
        ChildrenFilled(l, r, rank, leafNumber, node, s0, s1, s2);
        SumRows(node, lchild[node], rchild[node]);
        InnerFilled(l, r, rank, leafNumber, node, s0, s2, LapSolver.Rows(edge));
      }
    }

    /** The loop of pttree that sets the vector of node to the sum modulo 2 of the vectors of x and y. */
    method SumRows(node: int, x: int, y: int)
      requires Valid() && 0 <= node < edge.Length0 && 0 <= x < edge.Length0 && 0 <= y < edge.Length0
      requires x != node && y != node && 0 <= leafNumber <= edge.Length1
      modifies edge
      ensures forall m, j :: 0 <= m < edge.Length0 && 0 <= j < edge.Length1 ==>
        LapSolver.Rows(edge)[m][j] == (if m == node && j < leafNumber
                                       then (old(LapSolver.Rows(edge))[x][j] + old(LapSolver.Rows(edge))[y][j]) % 2
                                       else old(LapSolver.Rows(edge))[m][j])
    {
      ghost var s := LapSolver.Rows(edge);
      for i := 0 to leafNumber
        invariant forall m, j :: 0 <= m < edge.Length0 && 0 <= j < edge.Length1 ==>
          edge[m, j] == (if m == node && j < i then (s[x][j] + s[y][j]) % 2 else s[m][j])
      {
        edge[node, i] := (edge[x, i] + edge[y, i]) % 2;
      }
    }
  }

  /**
   * t is s after PtTree from top: every cell of a node below top holds what
   * Written gives for it, and every other cell is as in s.
   */
  ghost predicate Filled(l: seq<int>, r: seq<int>, rank: seq<nat>, n: int, top: int, s: seq<seq<int>>, t: seq<seq<int>>)
    requires Ranked(l, r, rank) && 0 <= top < |l|
  {
    && |s| == |t| == |l|
    && (forall m :: 0 <= m < |s| ==> |t[m]| == |s[m]|)
    && forall m, i :: 0 <= m < |s| && 0 <= i < |s[m]| ==>
         t[m][i] == (if Below(l, r, rank, top, m) then Written(l, r, rank, n, m, i, s[m][i]) else s[m][i])
  }

  lemma LeafFilled(l: seq<int>, r: seq<int>, rank: seq<nat>, n: int, node: int, s: seq<seq<int>>, t: seq<seq<int>>)
    requires Ranked(l, r, rank) && 0 <= node < |l| && IsLeaf(l, r, node) && 0 <= n
    requires |s| == |t| == |l| && forall m :: 0 <= m < |s| ==> |t[m]| == |s[m]| == |s|
    requires n <= |s|
    requires forall m, j :: 0 <= m < |s| && 0 <= j < |s| ==>
      t[m][j] == (if m == node && j == node then (if node != 0 then 1 else 0)
                  else if m == node && j < n then (if node != 0 then 0 else 1) else s[m][j])
    ensures Filled(l, r, rank, n, node, s, t)
  {
    forall m, i | 0 <= m < |s| && 0 <= i < |s[m]|
      ensures t[m][i] == (if Below(l, r, rank, node, m) then Written(l, r, rank, n, m, i, s[m][i]) else s[m][i])
    {
      if m == node {
        assert Below(l, r, rank, node, m);
      } else {
        assert !Below(l, r, rank, node, m);
      }
    }
  }

  lemma ChildrenFilled(l: seq<int>, r: seq<int>, rank: seq<nat>, n: int, node: int, s0: seq<seq<int>>, s1: seq<seq<int>>, s2: seq<seq<int>>)
    requires Ranked(l, r, rank) && 0 <= node < |l| && !IsLeaf(l, r, node)
    requires Filled(l, r, rank, n, l[node], s0, s1) && Filled(l, r, rank, n, r[node], s1, s2)
    ensures |s2| == |s0| && forall m :: 0 <= m < |s0| ==> |s2[m]| == |s0[m]|
    ensures forall m, i :: 0 <= m < |s0| && 0 <= i < |s0[m]| ==>
      s2[m][i] == (if m != node && Below(l, r, rank, node, m) then Written(l, r, rank, n, m, i, s0[m][i]) else s0[m][i])
    ensures forall i :: 0 <= i < n && i < |s0[l[node]]| ==> s2[l[node]][i] == Bit(l, r, rank, l[node], i)
    ensures forall i :: 0 <= i < n && i < |s0[r[node]]| ==> s2[r[node]][i] == Bit(l, r, rank, r[node], i)
  {
    forall m, i | 0 <= m < |s0| && 0 <= i < |s0[m]|
      ensures s2[m][i] == (if m != node && Below(l, r, rank, node, m) then Written(l, r, rank, n, m, i, s0[m][i]) else s0[m][i])
    {
      if m == node {
        assert !Below(l, r, rank, l[node], m) && !Below(l, r, rank, r[node], m);
      }
    }
    assert Below(l, r, rank, l[node], l[node]) && Below(l, r, rank, r[node], r[node]);
  }

  lemma InnerFilled(l: seq<int>, r: seq<int>, rank: seq<nat>, n: int, node: int, s0: seq<seq<int>>, s2: seq<seq<int>>, t: seq<seq<int>>)
    requires Ranked(l, r, rank) && 0 <= node < |l| && !IsLeaf(l, r, node) && 0 <= n
    requires |s0| == |s2| == |t| == |l| && forall m :: 0 <= m < |s0| ==> |t[m]| == |s2[m]| == |s0[m]| == |s0|
    requires n <= |s0|
    requires forall m, i :: 0 <= m < |s0| && 0 <= i < |s0[m]| ==>
      s2[m][i] == (if m != node && Below(l, r, rank, node, m) then Written(l, r, rank, n, m, i, s0[m][i]) else s0[m][i])
    requires forall i :: 0 <= i < n ==> s2[l[node]][i] == Bit(l, r, rank, l[node], i)
    requires forall i :: 0 <= i < n ==> s2[r[node]][i] == Bit(l, r, rank, r[node], i)
    requires forall m, j {:trigger t[m][j]} :: 0 <= m < |s0| && 0 <= j < |s0| ==>
      t[m][j] == (if m == node && j < n then (s2[l[node]][j] + s2[r[node]][j]) % 2 else s2[m][j])
    ensures Filled(l, r, rank, n, node, s0, t)
  {
    forall m, i | 0 <= m < |s0| && 0 <= i < |s0[m]|
      ensures t[m][i] == (if Below(l, r, rank, node, m) then Written(l, r, rank, n, m, i, s0[m][i]) else s0[m][i])
    {
      assert |s0[m]| == |s0|;
      if m == node {
        NodeCell(l, r, rank, n, node, i, s0[m][i], s2[m][i], s2[l[node]][i], s2[r[node]][i], t[m][i]);
      } else {
        assert t[m][i] == s2[m][i];
      }
    }
  }

  lemma NodeCell(l: seq<int>, r: seq<int>, rank: seq<nat>, n: int, node: int, i: int, v0: int, v2: int, a: int, b: int, w: int)
    requires Ranked(l, r, rank) && 0 <= node < |l| && !IsLeaf(l, r, node)
    requires v2 == v0 && (i < n ==> a == Bit(l, r, rank, l[node], i) && b == Bit(l, r, rank, r[node], i))
    requires w == if i < n then (a + b) % 2 else v2
    ensures w == Written(l, r, rank, n, node, i, v0)
  {
  }

  /** Node m has no children. */
  predicate IsLeaf(l: seq<int>, r: seq<int>, m: int)
    requires 0 <= m < |l| == |r|
  {
    l[m] == -1 && r[m] == -1
  }

  /**
   * Every node has no child or two children inside the arrays, each of a
   * smaller rank: the recursion of PtTree ends and reads no row outside.
   */
  ghost predicate Ranked(l: seq<int>, r: seq<int>, rank: seq<nat>)
  {
    && |l| == |r| == |rank|
    && forall m :: 0 <= m < |l| ==>
         IsLeaf(l, r, m) || (0 <= l[m] < |l| && 0 <= r[m] < |l| && rank[l[m]] < rank[m] && rank[r[m]] < rank[m])
  }

  /** Entry i of the vector PtTree gives node m. */
  ghost function Bit(l: seq<int>, r: seq<int>, rank: seq<nat>, m: int, i: int): (b: int)
    requires Ranked(l, r, rank) && 0 <= m < |l|
    ensures b == 0 || b == 1
    decreases rank[m]
  {
    if IsLeaf(l, r, m) then LeafBit(m, i)
    else (Bit(l, r, rank, l[m], i) + Bit(l, r, rank, r[m], i)) % 2
  }

  /** Entry i of the vector of childless node m: leaf 0 marks every other leaf, any other leaf itself. */
  function LeafBit(m: int, i: int): int
  {
    if (m != 0) == (i == m) then 1 else 0
  }

  /** m is node itself or lies in the subtree of one of its children. */
  ghost predicate Below(l: seq<int>, r: seq<int>, rank: seq<nat>, node: int, m: int)
    requires Ranked(l, r, rank) && 0 <= node < |l|
    ensures Below(l, r, rank, node, m) ==> 0 <= m < |l| && rank[m] <= rank[node]
    decreases rank[node]
  {
    || m == node
    || (!IsLeaf(l, r, node) && (Below(l, r, rank, l[node], m) || Below(l, r, rank, r[node], m)))
  }

  /**
   * The value PtTree leaves in cell (m, i) of a node below its start, v being
   * the previous value: the vector below column n, the diagonal cell of a
   * childless node, and otherwise v.
   */
  ghost function Written(l: seq<int>, r: seq<int>, rank: seq<nat>, n: int, m: int, i: int, v: int): int
    requires Ranked(l, r, rank) && 0 <= m < |l|
  {
    if i < n then Bit(l, r, rank, m, i)
    else if IsLeaf(l, r, m) && i == m then (if m != 0 then 1 else 0)
    else v
  }

  /** How many of the childless nodes below m have id k. */
  ghost function Occ(l: seq<int>, r: seq<int>, rank: seq<nat>, m: int, k: int): nat
    requires Ranked(l, r, rank) && 0 <= m < |l|
    decreases rank[m]
  {
    if IsLeaf(l, r, m) then (if m == k then 1 else 0)
    else Occ(l, r, rank, l[m], k) + Occ(l, r, rank, r[m], k)
  }

  lemma ModTwoSum(a: nat, b: nat, c: nat, d: nat, p: int, q: int)
    requires p == (a + b) % 2 && q == (c + d) % 2
    ensures (p + q) % 2 == ((a + c) + (b + d)) % 2
  {
  }

  /**
   * The vector of a node sets entry i exactly when one of leaf i and leaf 0
   * lies below the node: it marks the side of the edge's bipartition that
   * does not hold leaf 0.
   */
  lemma {:induction false} BitIsSideAwayFromLeafZero(l: seq<int>, r: seq<int>, rank: seq<nat>, m: int, i: int)
    requires Ranked(l, r, rank) && 0 <= m < |l|
    ensures Bit(l, r, rank, m, i) == (Occ(l, r, rank, m, i) + Occ(l, r, rank, m, 0)) % 2
    decreases rank[m]
  {
    if !IsLeaf(l, r, m) {
      var x, y := l[m], r[m];
      BitIsSideAwayFromLeafZero(l, r, rank, x, i);
      BitIsSideAwayFromLeafZero(l, r, rank, y, i);
      ModTwoSum(Occ(l, r, rank, x, i), Occ(l, r, rank, x, 0), Occ(l, r, rank, y, i), Occ(l, r, rank, y, 0),
                Bit(l, r, rank, x, i), Bit(l, r, rank, y, i));
    }
  }

  /** So entry 0 of every vector is 0. */
  lemma BitAtLeafZero(l: seq<int>, r: seq<int>, rank: seq<nat>, m: int)
    requires Ranked(l, r, rank) && 0 <= m < |l|
    ensures Bit(l, r, rank, m, 0) == 0
  {
    BitIsSideAwayFromLeafZero(l, r, rank, m, 0);
  }

  // ---------------------------------------------------------------- vectors

  /** The first n entries of row a of ea and of row b of eb agree. */
  predicate RowsAgree(ea: seq<seq<int>>, a: int, eb: seq<seq<int>>, b: int, n: int)
  {
    && 0 <= a < |ea| && 0 <= b < |eb| && n <= |ea[a]| && n <= |eb[b]|
    && forall i :: 0 <= i < n ==> ea[a][i] == eb[b][i]
  }

  /** vecdistance: 1 when the vectors of node a of ta and node b of tb agree on the leaves of ta, else 0. */
  method VecDistance(ta: Ptree, a: int, tb: Ptree, b: int) returns (d: int)
    requires 0 <= a < ta.edge.Length0 && 0 <= b < tb.edge.Length0
    requires 0 <= ta.leafNumber <= ta.edge.Length1 && ta.leafNumber <= tb.edge.Length1
    ensures d == (if RowsAgree(LapSolver.Rows(ta.edge), a, LapSolver.Rows(tb.edge), b, ta.leafNumber) then 1 else 0)
  {
    ghost var ea, eb := LapSolver.Rows(ta.edge), LapSolver.Rows(tb.edge);
    for i := 0 to ta.leafNumber
      invariant forall k :: 0 <= k < i ==> ea[a][k] == eb[b][k]
    {
      if ta.edge[a, i] != tb.edge[b, i] {
        return 0;
      }
    }
    return 1;
  }

  // ------------------------------------------------------------ RF distance

  /** Some inner non-root node j of the second tree has the vector of node i of the first. */
  ghost predicate HasMatch(ea: seq<seq<int>>, eb: seq<seq<int>>, na: int, nb: int, i: int)
  {
    exists j :: nb + 1 <= j < 2 * nb - 1 && RowsAgree(ea, i, eb, j, na)
  }

  /** How many nodes lo .. hi-1 of the first tree have a match in the second. */
  ghost function MatchCount(ea: seq<seq<int>>, eb: seq<seq<int>>, na: int, nb: int, lo: int, hi: int): (c: nat)
    ensures c <= if lo <= hi then hi - lo else 0
    decreases hi - lo
  {
    if hi <= lo then 0
    else MatchCount(ea, eb, na, nb, lo, hi - 1) + (if HasMatch(ea, eb, na, nb, hi - 1) then 1 else 0)
  }

  /** The same count with node skip left out. */
  ghost function MatchCountSkipping(ea: seq<seq<int>>, eb: seq<seq<int>>, na: int, nb: int, lo: int, hi: int, skip: int): (c: nat)
    ensures c <= if lo <= hi then hi - lo else 0
    decreases hi - lo
  {
    if hi <= lo then 0
    else MatchCountSkipping(ea, eb, na, nb, lo, hi - 1, skip)
         + (if hi - 1 != skip && HasMatch(ea, eb, na, nb, hi - 1) then 1 else 0)
  }

  /** rfdistance as written: the first tree's nodes from n+2 on, so node n+1 is never compared. */
  ghost function RfWritten(ea: seq<seq<int>>, eb: seq<seq<int>>, na: int, nb: int): int
  {
    na - 3 - MatchCount(ea, eb, na, nb, na + 2, 2 * na - 1)
  }

  /** The count rfdistance is meant to take: every inner non-root node except spe, each edge once. */
  ghost function RfIntended(ea: seq<seq<int>>, eb: seq<seq<int>>, na: int, nb: int, spe: int): int
  {
    na - 3 - MatchCountSkipping(ea, eb, na, nb, na + 1, 2 * na - 1, spe)
  }

  /** Tells whether node i of ta matches an inner non-root node of tb, stopping at the first match. */
  method FindMatch(ta: Ptree, i: int, tb: Ptree) returns (found: bool)
    requires 0 <= i < ta.edge.Length0 && 2 * tb.leafNumber - 1 <= tb.edge.Length0
    requires 0 <= ta.leafNumber <= ta.edge.Length1 && ta.leafNumber <= tb.edge.Length1
    ensures found == HasMatch(LapSolver.Rows(ta.edge), LapSolver.Rows(tb.edge), ta.leafNumber, tb.leafNumber, i)
  {
    ghost var ea, eb := LapSolver.Rows(ta.edge), LapSolver.Rows(tb.edge);
    var tag := 0;
    var j := tb.leafNumber + 1;
    while j < tb.leafNumber * 2 - 1 && tag == 0
      invariant tb.leafNumber + 1 <= j
      invariant tag == 0 ==> forall k :: tb.leafNumber + 1 <= k < j ==> !RowsAgree(ea, i, eb, k, ta.leafNumber)
      invariant tag != 0 ==> HasMatch(ea, eb, ta.leafNumber, tb.leafNumber, i)
      decreases tb.leafNumber * 2 - 1 - j, 1 - tag
    {
      var d := VecDistance(ta, i, tb, j);
      if d > 0 {
        tag := tag + 1;
      }
      j := j + 1;
    }
    found := tag != 0;
  }

  /**
   * rfdistance: n - 3 minus the number of nodes n+2 .. 2n-2 of ta whose vector
   * some inner non-root node of tb shares.  The flag array it also fills is
   * never read and is not modelled.
   */
  method RfDistance(ta: Ptree, tb: Ptree) returns (rf: int)
    requires 2 * ta.leafNumber - 1 <= ta.edge.Length0 && 2 * tb.leafNumber - 1 <= tb.edge.Length0
    requires 0 <= ta.leafNumber <= ta.edge.Length1 && ta.leafNumber <= tb.edge.Length1
    ensures rf == RfWritten(LapSolver.Rows(ta.edge), LapSolver.Rows(tb.edge), ta.leafNumber, tb.leafNumber)
  {
    ghost var ea, eb := LapSolver.Rows(ta.edge), LapSolver.Rows(tb.edge);
    var count := 0;
    var i := ta.leafNumber + 2;
    while i < ta.leafNumber * 2 - 1
      invariant ta.leafNumber + 2 <= i && (i <= 2 * ta.leafNumber - 1 || i == ta.leafNumber + 2)
      invariant count == MatchCount(ea, eb, ta.leafNumber, tb.leafNumber, ta.leafNumber + 2, i)
    {
      var found := FindMatch(ta, i, tb);
      if found {
        count := count + 1;
      }
      i := i + 1;
    }
    rf := ta.leafNumber - 3 - count;
  }

  /** rfdistance with the first tree's loop corrected: it starts at n+1 and skips spe. */
  method RfDistanceCorrected(ta: Ptree, tb: Ptree) returns (rf: int)
    requires 0 <= ta.leafNumber < ta.lchild.Length == ta.rchild.Length
    requires 2 * ta.leafNumber - 1 <= ta.edge.Length0 && 2 * tb.leafNumber - 1 <= tb.edge.Length0
    requires ta.leafNumber <= ta.edge.Length1 && ta.leafNumber <= tb.edge.Length1
    ensures rf == RfIntended(LapSolver.Rows(ta.edge), LapSolver.Rows(tb.edge), ta.leafNumber, tb.leafNumber, Spe(ta))
  {
    ghost var ea, eb := LapSolver.Rows(ta.edge), LapSolver.Rows(tb.edge);
    var spe := Spe(ta);
    var count := 0;
    var i := ta.leafNumber + 1;
    while i < ta.leafNumber * 2 - 1
      invariant ta.leafNumber + 1 <= i && (i <= 2 * ta.leafNumber - 1 || i == ta.leafNumber + 1)
      invariant count == MatchCountSkipping(ea, eb, ta.leafNumber, tb.leafNumber, ta.leafNumber + 1, i, spe)
    {
      if i != spe {
        var found := FindMatch(ta, i, tb);
        if found {
          count := count + 1;
        }
      }
      i := i + 1;
    }
    rf := ta.leafNumber - 3 - count;
  }

  lemma {:induction false} MatchCountSkippingAll(e: seq<seq<int>>, n: int, lo: int, hi: int, skip: int)
    requires n + 1 <= lo && hi <= 2 * n - 1 && hi <= |e|
    requires forall k :: lo <= k < hi ==> n <= |e[k]|
    ensures MatchCountSkipping(e, e, n, n, lo, hi, skip) == (if lo <= skip < hi then hi - lo - 1 else if lo <= hi then hi - lo else 0)
    decreases hi - lo
  {
    if lo < hi {
      MatchCountSkippingAll(e, n, lo, hi - 1, skip);
      assert RowsAgree(e, hi - 1, e, hi - 1, n);
    }
  }

  /** The corrected count gives a tree against itself distance 0. */
  lemma RfIntendedSelfZero(e: seq<seq<int>>, n: int, spe: int)
    requires n + 1 <= spe < 2 * n - 1 <= |e|
    requires forall k :: n + 1 <= k < 2 * n - 1 ==> n <= |e[k]|
    ensures RfIntended(e, e, n, n, spe) == 0
  {
    MatchCountSkippingAll(e, n, n + 1, 2 * n - 1, spe);
  }

  /** The vectors PtTree gives nodes 0 .. |l|-1, each over n leaves. */
  ghost function Vectors(l: seq<int>, r: seq<int>, rank: seq<nat>, n: nat): (e: seq<seq<int>>)
    requires Ranked(l, r, rank)
    ensures |e| == |l| && forall m :: 0 <= m < |l| ==> |e[m]| == n
  {
    seq(|l|, m requires 0 <= m < |l| => seq(n, i => Bit(l, r, rank, m, i)))
  }

  /** The example trees below: links of the first and second tree, and one rank for both. */
  function ExampleLeftA(): seq<int> { [-1, -1, -1, -1, -1, 8, 1, 2, 4, -1] }
  function ExampleLeftB(): seq<int> { [-1, -1, -1, -1, -1, 8, 2, 1, 4, -1] }
  function ExampleRight(): seq<int> { [-1, -1, -1, -1, -1, 7, 0, 6, 3, -1] }
  function ExampleRank(): seq<nat> { [0, 0, 0, 0, 0, 3, 1, 2, 1, 0] }

  lemma ExampleRanked()
    ensures Ranked(ExampleLeftA(), ExampleRight(), ExampleRank())
    ensures Ranked(ExampleLeftB(), ExampleRight(), ExampleRank())
  {
  }

  /** The vector of a node whose two children are childless. */
  lemma CherryBit(l: seq<int>, r: seq<int>, rank: seq<nat>, m: int, i: int)
    requires Ranked(l, r, rank) && 0 <= m < |l| && !IsLeaf(l, r, m)
    requires IsLeaf(l, r, l[m]) && IsLeaf(l, r, r[m])
    ensures Bit(l, r, rank, m, i) == (LeafBit(l[m], i) + LeafBit(r[m], i)) % 2
  {
  }

  /** The vector of a node whose first child is childless. */
  lemma JoinBit(l: seq<int>, r: seq<int>, rank: seq<nat>, m: int, i: int)
    requires Ranked(l, r, rank) && 0 <= m < |l| && !IsLeaf(l, r, m) && IsLeaf(l, r, l[m])
    ensures Bit(l, r, rank, m, i) == (LeafBit(l[m], i) + Bit(l, r, rank, r[m], i)) % 2
  {
  }

  /**
   * Nodes 6, 7 and 8 of a tree on five leaves shaped as both examples are:
   * 6 joins leaves x and y, 7 joins leaf z to 6, and 8 joins leaves 4 and 3.
   */
  lemma ExampleShapeBits(l: seq<int>, r: seq<int>, rank: seq<nat>, x: int, y: int, z: int, i: int)
    requires Ranked(l, r, rank) && |l| == 10 && 0 <= x < 5 && 0 <= y < 5 && 0 <= z < 5
    requires l[x] == r[x] == l[y] == r[y] == l[z] == r[z] == l[3] == r[3] == l[4] == r[4] == -1
    requires l[6] == x && r[6] == y && l[7] == z && r[7] == 6 && l[8] == 4 && r[8] == 3
    ensures Bit(l, r, rank, 6, i) == (LeafBit(x, i) + LeafBit(y, i)) % 2
    ensures Bit(l, r, rank, 7, i) == (LeafBit(z, i) + Bit(l, r, rank, 6, i)) % 2
    ensures Bit(l, r, rank, 8, i) == (LeafBit(4, i) + LeafBit(3, i)) % 2
  {
    CherryBit(l, r, rank, 6, i);
    JoinBit(l, r, rank, 7, i);
    CherryBit(l, r, rank, 8, i);
  }

  /** Nodes 6, 7 and 8 of the first example tree separate {1,2}, {1,2,3} and {4,5} from the rest. */
  lemma ExampleBitsA(i: int)
    requires 0 <= i < 5 && Ranked(ExampleLeftA(), ExampleRight(), ExampleRank())
    ensures Bit(ExampleLeftA(), ExampleRight(), ExampleRank(), 6, i) == (if 2 <= i then 1 else 0)
    ensures Bit(ExampleLeftA(), ExampleRight(), ExampleRank(), 7, i) == (if 3 <= i then 1 else 0)
    ensures Bit(ExampleLeftA(), ExampleRight(), ExampleRank(), 8, i) == (if 3 <= i then 1 else 0)
  {
    ExampleShapeBits(ExampleLeftA(), ExampleRight(), ExampleRank(), 1, 0, 2, i);
  }

  /** Nodes 6, 7 and 8 of the second example tree separate {1,3}, {1,2,3} and {4,5} from the rest. */
  lemma ExampleBitsB(i: int)
    requires 0 <= i < 5 && Ranked(ExampleLeftB(), ExampleRight(), ExampleRank())
    ensures Bit(ExampleLeftB(), ExampleRight(), ExampleRank(), 6, i) == (if i == 1 || 3 <= i then 1 else 0)
    ensures Bit(ExampleLeftB(), ExampleRight(), ExampleRank(), 7, i) == (if 3 <= i then 1 else 0)
    ensures Bit(ExampleLeftB(), ExampleRight(), ExampleRank(), 8, i) == (if 3 <= i then 1 else 0)
  {
    ExampleShapeBits(ExampleLeftB(), ExampleRight(), ExampleRank(), 2, 0, 1, i);
  }

  /** The counts of rfdistance on two vector tables whose inner non-root rows are those of the examples. */
  lemma ExampleCounts(ea: seq<seq<int>>, eb: seq<seq<int>>)
    requires |ea| == |eb| == 10 && forall m :: 0 <= m < 10 ==> |ea[m]| == |eb[m]| == 5
    requires forall i :: 0 <= i < 5 ==> ea[6][i] == (if i < 2 then 0 else 1)
    requires forall i :: 0 <= i < 5 ==> ea[7][i] == ea[8][i] == eb[7][i] == eb[8][i] == (if i < 3 then 0 else 1)
    requires forall i :: 0 <= i < 5 ==> eb[6][i] == (if i == 1 || i == 3 || i == 4 then 1 else 0)
    ensures !HasMatch(ea, eb, 5, 5, 6) && RfWritten(ea, eb, 5, 5) == 0 && RfIntended(ea, eb, 5, 5, 8) == 1
  {
    assert !RowsAgree(ea, 6, eb, 6, 5) by { assert ea[6][1] != eb[6][1]; }
    assert !RowsAgree(ea, 6, eb, 7, 5) by { assert ea[6][2] != eb[7][2]; }
    assert !RowsAgree(ea, 6, eb, 8, 5) by { assert ea[6][2] != eb[8][2]; }
    assert RowsAgree(ea, 7, eb, 7, 5) && RowsAgree(ea, 8, eb, 7, 5);
    assert HasMatch(ea, eb, 5, 5, 7) && HasMatch(ea, eb, 5, 5, 8);
    assert MatchCount(ea, eb, 5, 5, 7, 8) == 1;
    assert MatchCount(ea, eb, 5, 5, 7, 9) == 2;
    assert MatchCountSkipping(ea, eb, 5, 5, 6, 7, 8) == 0;
    assert MatchCountSkipping(ea, eb, 5, 5, 6, 8, 8) == 1;
    assert MatchCountSkipping(ea, eb, 5, 5, 6, 9, 8) == 1;
  }

  /**
   * Five leaves.  The first tree is (((1,2),3),4,5) and the second
   * (((1,3),2),4,5), as the parser numbers them: leaf k is node k-1, the
   * cherries are nodes 6 and 8, node 7 joins the first cherry to the third
   * leaf, and the root 5 has children 8 (spe) and 7, which stand for the same
   * bipartition {4,5} | {1,2,3}.  The trees differ in one split, {1,2} against
   * {1,3}, yet rfdistance reports 0: it never compares node 6 and counts the
   * root's bipartition twice.  The corrected count reports 1.
   */
  lemma RfDistanceMissesFirstCherry()
    ensures Ranked(ExampleLeftA(), ExampleRight(), ExampleRank()) && Ranked(ExampleLeftB(), ExampleRight(), ExampleRank())
    ensures var ea := Vectors(ExampleLeftA(), ExampleRight(), ExampleRank(), 5);
            var eb := Vectors(ExampleLeftB(), ExampleRight(), ExampleRank(), 5);
            && !HasMatch(ea, eb, 5, 5, 6)
            && RfWritten(ea, eb, 5, 5) == 0
            && RfIntended(ea, eb, 5, 5, 8) == 1
  {
    ExampleRanked();
    var ea := Vectors(ExampleLeftA(), ExampleRight(), ExampleRank(), 5);
    var eb := Vectors(ExampleLeftB(), ExampleRight(), ExampleRank(), 5);
    forall i | 0 <= i < 5
      ensures ea[6][i] == (if i < 2 then 0 else 1)
      ensures ea[7][i] == ea[8][i] == eb[7][i] == eb[8][i] == (if i < 3 then 0 else 1)
      ensures eb[6][i] == (if i == 1 || i == 3 || i == 4 then 1 else 0)
    {
      ExampleBitsA(i);
      ExampleBitsB(i);
    }
    ExampleCounts(ea, eb);
  }

  /** The inner child of the root (the first child when it is inner, else the second). */
  function Spe(t: Ptree): (s: int)
    reads t, t.lchild, t.rchild
    requires 0 <= t.leafNumber < t.lchild.Length == t.rchild.Length
    ensures s > t.leafNumber || s == t.rchild[t.leafNumber]
  {
    if t.lchild[t.leafNumber] > t.leafNumber then t.lchild[t.leafNumber] else t.rchild[t.leafNumber]
  }

  // ---------------------------------------------------------- cost matrix

  /** Row e of e1 is at least w long. */
  predicate HasRow(ea: seq<seq<int>>, a: int, w: int)
  {
    0 <= a < |ea| && 0 <= w <= |ea[a]|
  }

  /** Over the first k leaves, how many entries of row a of ea and row b of eb differ. */
  function Mismatch(ea: seq<seq<int>>, a: int, eb: seq<seq<int>>, b: int, k: int): (c: nat)
    requires HasRow(ea, a, k) && HasRow(eb, b, k)
    ensures c <= k
  {
    if k == 0 then 0
    else Mismatch(ea, a, eb, b, k - 1) + (if ea[a][k - 1] != eb[b][k - 1] then 1 else 0)
  }

  /** Over the first k leaves, how many entries of the two rows agree. */
  function Agreement(ea: seq<seq<int>>, a: int, eb: seq<seq<int>>, b: int, k: int): (c: nat)
    requires HasRow(ea, a, k) && HasRow(eb, b, k)
  {
    if k == 0 then 0
    else Agreement(ea, a, eb, b, k - 1) + (if ea[a][k - 1] == eb[b][k - 1] then 1 else 0)
  }

  /** The cost of matching two edges: the fewer of the leaves they disagree and agree on. */
  function Cost(ea: seq<seq<int>>, a: int, eb: seq<seq<int>>, b: int, n: int): int
    requires HasRow(ea, a, n) && HasRow(eb, b, n)
  {
    var d, s := Mismatch(ea, a, eb, b, n), Agreement(ea, a, eb, b, n);
    if d < s then d else s
  }

  /** Every leaf is counted once, as a disagreement or as an agreement. */
  lemma {:induction false} MismatchPlusAgreement(ea: seq<seq<int>>, a: int, eb: seq<seq<int>>, b: int, k: int)
    requires HasRow(ea, a, k) && HasRow(eb, b, k)
    ensures Mismatch(ea, a, eb, b, k) + Agreement(ea, a, eb, b, k) == k
  {
    if k > 0 {
      MismatchPlusAgreement(ea, a, eb, b, k - 1);
    }
  }

  /** Rows that agree everywhere disagree nowhere. */
  lemma {:induction false} MismatchOfAgreeing(ea: seq<seq<int>>, a: int, eb: seq<seq<int>>, b: int, k: int)
    requires HasRow(ea, a, k) && HasRow(eb, b, k) && forall i :: 0 <= i < k ==> ea[a][i] == eb[b][i]
    ensures Mismatch(ea, a, eb, b, k) == 0
  {
    if k > 0 {
      MismatchOfAgreeing(ea, a, eb, b, k - 1);
    }
  }

  /** Rows that are complements of each other agree nowhere. */
  lemma {:induction false} AgreementOfComplements(ea: seq<seq<int>>, a: int, eb: seq<seq<int>>, b: int, k: int)
    requires HasRow(ea, a, k) && HasRow(eb, b, k) && forall i :: 0 <= i < k ==> ea[a][i] == 1 - eb[b][i]
    ensures Agreement(ea, a, eb, b, k) == 0
  {
    if k > 0 {
      AgreementOfComplements(ea, a, eb, b, k - 1);
    }
  }

  /**
   * A matching cost lies between 0 and half the leaves, and it is 0 for two
   * vectors of the same bipartition: equal vectors or complementary ones.
   */
  lemma CostBounds(ea: seq<seq<int>>, a: int, eb: seq<seq<int>>, b: int, n: int)
    requires HasRow(ea, a, n) && HasRow(eb, b, n)
    ensures 0 <= 2 * Cost(ea, a, eb, b, n) <= n
    ensures (forall i :: 0 <= i < n ==> ea[a][i] == eb[b][i]) ==> Cost(ea, a, eb, b, n) == 0
    ensures (forall i :: 0 <= i < n ==> ea[a][i] == 1 - eb[b][i]) ==> Cost(ea, a, eb, b, n) == 0
  {
    MismatchPlusAgreement(ea, a, eb, b, n);
    if forall i :: 0 <= i < n ==> ea[a][i] == eb[b][i] {
      MismatchOfAgreeing(ea, a, eb, b, n);
    }
    if forall i :: 0 <= i < n ==> ea[a][i] == 1 - eb[b][i] {
      AgreementOfComplements(ea, a, eb, b, n);
    }
  }

  /** The node id of row or column a of the matrix: n+1+a, stepping over spe. */
  function Kept(n: int, spe: int, a: int): (e: int)
    ensures e != spe || spe < n + 1 + a
  {
    if n + 1 + a < spe then n + 1 + a else n + 2 + a
  }

  /** The vectors have a row for every inner node, each at least n long. */
  ghost predicate Rowed(e: seq<seq<int>>, n: int)
  {
    2 * n - 1 <= |e| && forall k :: 0 <= k < |e| ==> 0 <= n <= |e[k]|
  }

  /** Row a of the matrix compute_matrix fills: edge e1 of the first tree against each kept edge of the second. */
  ghost function CostRow(ea: seq<seq<int>>, e1: int, eb: seq<seq<int>>, n: int, spe2: int): (row: seq<int>)
    requires 3 <= n && Rowed(ea, n) && Rowed(eb, n) && 0 <= e1 < 2 * n - 1
    requires n + 1 <= spe2 < 2 * n - 1
    ensures |row| == n - 3
  {
    seq(n - 3, b requires 0 <= b < n - 3 => Cost(ea, e1, eb, Kept(n, spe2, b), n))
  }

  /** The (n-3)x(n-3) matrix compute_matrix fills: row a matches the a-th kept edge of the first tree. */
  ghost function CostMatrix(ea: seq<seq<int>>, eb: seq<seq<int>>, n: int, spe1: int, spe2: int): (m: seq<seq<int>>)
    requires 3 <= n && Rowed(ea, n) && Rowed(eb, n)
    requires n + 1 <= spe1 < 2 * n - 1 && n + 1 <= spe2 < 2 * n - 1
    ensures |m| == n - 3 && LapSolver.Square(m)
    ensures forall a :: 0 <= a < n - 3 ==> m[a] == CostRow(ea, Kept(n, spe1, a), eb, n, spe2)
  {
    seq(n - 3, a requires 0 <= a < n - 3 => CostRow(ea, Kept(n, spe1, a), eb, n, spe2))
  }

  /** The root's duplicate edge is an inner non-root node and the arrays hold 2n-1 nodes. */
  ghost predicate SpeOk(t: Ptree)
    reads t, t.lchild, t.rchild, t.edge
  {
    && 3 <= t.leafNumber < t.lchild.Length == t.rchild.Length
    && 2 * t.leafNumber - 1 <= t.edge.Length0 && t.leafNumber <= t.edge.Length1
    && t.leafNumber + 1 <= Spe(t) < 2 * t.leafNumber - 1
  }

  /** The rows of m laid out one after another, as the row-major array r holds them. */
  function Flat(m: seq<seq<int>>): seq<int>
  {
    if m == [] then [] else Flat(m[..|m| - 1]) + m[|m| - 1]
  }

  /** Cell (a, b) of a row-major matrix with w columns held in s, 0 past its end. */
  function Entry(s: seq<int>, w: int, a: int, b: int): int
  {
    if 0 <= a * w + b < |s| then s[a * w + b] else 0
  }

  lemma {:induction false} FlatLength(m: seq<seq<int>>, w: int)
    requires forall i :: 0 <= i < |m| ==> |m[i]| == w
    ensures |Flat(m)| == |m| * w
  {
    if m != [] {
      FlatLength(m[..|m| - 1], w);
    }
  }

  /** Entry (i, j) of the laid-out rows is m[i][j]. */
  lemma {:induction false} FlatAt(m: seq<seq<int>>, w: int, i: int, j: int)
    requires forall k :: 0 <= k < |m| ==> |m[k]| == w
    requires 0 <= i < |m| && 0 <= j < w
    ensures Entry(Flat(m), w, i, j) == m[i][j]
  {
    var p := m[..|m| - 1];
    FlatLength(p, w);
    if i == |m| - 1 {
      assert i * w + j == |Flat(p)| + j;
    } else {
      FlatAt(p, w, i, j);
      assert i * w + j < |p| * w by { RowBelow(i, j, |p|, w); }
    }
  }

  lemma RowBelow(i: int, j: int, rows: int, cols: int)
    requires 0 <= i < rows && 0 <= j < cols
    ensures 0 <= i * cols + j < rows * cols && i * cols + cols <= rows * cols
  {
    assert (i + 1) * cols <= rows * cols;
  }

  lemma FlatStep(m: seq<seq<int>>, row: int, s: seq<int>, base: int, w: int)
    requires 0 <= row < |m| && 0 <= base && base + w <= |s| && 0 <= w
    requires s[..base] == Flat(m[..row]) && s[base..base + w] == m[row]
    ensures s[..base + w] == Flat(m[..row + 1])
  {
    assert m[..row + 1][..row] == m[..row];
    assert s[..base + w] == s[..base] + s[base..base + w];
  }

  lemma NextRow(row: int, range: int)
    ensures row * range + range == (row + 1) * range
  {
  }

  /** r is none of the link arrays of t. */
  predicate Apart(r: array<int>, t: Ptree)
    reads t
  {
    r != t.parent && r != t.lchild && r != t.rchild
  }

  /** The cost cell of nodes e1 of t1 and e2 of t2 over t2's leaves: the two counting loops. */
  method CellCost(t1: Ptree, e1: int, t2: Ptree, e2: int) returns (c: int)
    requires 0 <= e1 < t1.edge.Length0 && 0 <= e2 < t2.edge.Length0
    requires 0 <= t2.leafNumber <= t1.edge.Length1 && t2.leafNumber <= t2.edge.Length1
    ensures c == Cost(LapSolver.Rows(t1.edge), e1, LapSolver.Rows(t2.edge), e2, t2.leafNumber)
  {
    ghost var ea, eb := LapSolver.Rows(t1.edge), LapSolver.Rows(t2.edge);
    var temp1 := 0;
    for i := 0 to t2.leafNumber
      invariant temp1 == Mismatch(ea, e1, eb, e2, i)
    {
      if t1.edge[e1, i] != t2.edge[e2, i] {
        temp1 := temp1 + 1;
      }
    }
    var temp2 := 0;
    for i := 0 to t2.leafNumber
      invariant temp2 == Agreement(ea, e1, eb, e2, i)
    {
      if t1.edge[e1, i] == t2.edge[e2, i] {
        temp2 := temp2 + 1;
      }
    }
    if temp1 < temp2 {
      c := temp1;
    } else {
      c := temp2;
    }
  }

  /** Row row of r, which starts at base: node e1 of t1 against every inner node of t2 but spe2. */
  method FillRow(t1: Ptree, t2: Ptree, r: array<int>, range: int, n: int, spe2: int, e1: int, row: int,
                 ghost base: int, ghost cr: seq<int>)
    requires 3 <= n == t2.leafNumber && range == n - 3 && n + 1 <= spe2 < 2 * n - 1
    requires 0 <= e1 < t1.edge.Length0 && 2 * n - 1 <= t2.edge.Length0 && n <= t1.edge.Length1 && n <= t2.edge.Length1
    requires base == row * range && 0 <= base && base + range <= r.Length
    requires |cr| == range
    requires forall b :: 0 <= b < range ==> cr[b] == Cost(LapSolver.Rows(t1.edge), e1, LapSolver.Rows(t2.edge), Kept(n, spe2, b), n)
    modifies r
    ensures r[base..base + range] == cr
    ensures forall k :: 0 <= k < r.Length && !(base <= k < base + range) ==> r[k] == old(r[k])
  {
    var col := 0;
    for e2 := n + 1 to 2 * n - 1
      invariant col == e2 - (n + 1) - (if spe2 < e2 then 1 else 0)
      invariant forall b :: 0 <= b < col ==> r[base + b] == cr[b]
      invariant forall k :: 0 <= k < r.Length && !(base <= k < base + col) ==> r[k] == old(r[k])
    {
      if e2 != spe2 {
        var c := CellCost(t1, e1, t2, e2);
        assert Kept(n, spe2, col) == e2;
        r[row * range + col] := c;
        col := col + 1;
      }
    }
    assert col == range;
    assert r[base..base + range] == cr;
  }

  /**
   * compute_matrix: r holds, row by row, the cost of the a-th kept inner edge
   * of t1 against the b-th kept inner edge of t2, spe1 and spe2 stepped over.
   * With spe among the inner nodes every row has n-3 cells and there are n-3
   * rows, so the overflow messages are never printed.
   */
  method ComputeMatrix(t1: Ptree, t2: Ptree, r: array<int>, range: int)
    requires SpeOk(t1) && SpeOk(t2) && t1.leafNumber == t2.leafNumber && range == t1.leafNumber - 3
    requires r.Length == range * range && Apart(r, t1) && Apart(r, t2)
    modifies r
    ensures Rowed(LapSolver.Rows(t1.edge), t1.leafNumber) && Rowed(LapSolver.Rows(t2.edge), t2.leafNumber)
    ensures r[..] == Flat(CostMatrix(LapSolver.Rows(t1.edge), LapSolver.Rows(t2.edge), t1.leafNumber, Spe(t1), Spe(t2)))
  {
    var spe1 := Spe(t1);
    var spe2 := Spe(t2);
    ghost var ea, eb := LapSolver.Rows(t1.edge), LapSolver.Rows(t2.edge);
    ghost var cm := CostMatrix(ea, eb, t1.leafNumber, spe1, spe2);
    FillRows(t1, t2, r, range, t1.leafNumber, spe1, spe2, cm);
    assert LapSolver.Rows(t1.edge) == ea && LapSolver.Rows(t2.edge) == eb;
  }

  /** The loops of compute_matrix: one row per inner node of t1 but spe1. */
  method FillRows(t1: Ptree, t2: Ptree, r: array<int>, range: int, n: int, spe1: int, spe2: int, ghost cm: seq<seq<int>>)
    requires 3 <= n == t2.leafNumber && range == n - 3 && n + 1 <= spe1 < 2 * n - 1 && n + 1 <= spe2 < 2 * n - 1
    requires 2 * n - 1 <= t1.edge.Length0 && 2 * n - 1 <= t2.edge.Length0 && n <= t1.edge.Length1 && n <= t2.edge.Length1
    requires r.Length == range * range
    requires |cm| == range
    requires forall a :: 0 <= a < range ==> |cm[a]| == range
    requires forall a, b :: 0 <= a < range && 0 <= b < range ==>
      cm[a][b] == Cost(LapSolver.Rows(t1.edge), Kept(n, spe1, a), LapSolver.Rows(t2.edge), Kept(n, spe2, b), n)
    modifies r
    ensures r[..] == Flat(cm)
  {
    var row := 0;
    ghost var base := 0;
    for e1 := n + 1 to 2 * n - 1
      invariant row == e1 - (n + 1) - (if spe1 < e1 then 1 else 0)
      invariant base == row * range && base <= r.Length
      invariant r[..base] == Flat(cm[..row])
    {
      if e1 != spe1 {
        assert Kept(n, spe1, row) == e1;
        RowBelow(row, 0, range, range);
        AppendRow(t1, t2, r, range, n, spe2, e1, row, base, cm);
        NextRow(row, range);
        row := row + 1;
        base := base + range;
      }
    }
    assert row == range;
    assert cm[..row] == cm;
  }

  /** One pass of the outer loop: row `row` of cm, for edge e1, written after the rows before it. */
  method AppendRow(t1: Ptree, t2: Ptree, r: array<int>, range: int, n: int, spe2: int, e1: int, row: int,
                   ghost base: int, ghost cm: seq<seq<int>>)
    requires 3 <= n == t2.leafNumber && range == n - 3 && n + 1 <= spe2 < 2 * n - 1
    requires 0 <= e1 < t1.edge.Length0 && 2 * n - 1 <= t2.edge.Length0 && n <= t1.edge.Length1 && n <= t2.edge.Length1
    requires 0 <= row < |cm| && |cm[row]| == range
    requires base == row * range && 0 <= base && base + range <= r.Length
    requires forall b :: 0 <= b < range ==> cm[row][b] == Cost(LapSolver.Rows(t1.edge), e1, LapSolver.Rows(t2.edge), Kept(n, spe2, b), n)
    requires r[..base] == Flat(cm[..row])
    modifies r
    ensures r[..base + range] == Flat(cm[..row + 1])
  {
    ghost var before := r[..];
    FillRow(t1, t2, r, range, n, spe2, e1, row, base, cm[row]);
    assert r[..base] == before[..base];
    FlatStep(cm, row, r[..], base, range);
  }

  /** array_to_matrix: the rows x cols matrix whose row i is the i-th block of cols entries of flat. */
  method ArrayToMatrix(flat: array<int>, rows: nat, cols: nat) returns (m: array2<int>)
    requires flat.Length == rows * cols
    ensures fresh(m) && m.Length0 == rows && m.Length1 == cols
    ensures forall i, j :: 0 <= i < rows && 0 <= j < cols ==> m[i, j] == Entry(flat[..], cols, i, j)
  {
    m := new int[rows, cols];
    for i := 0 to rows
      invariant forall a, b :: 0 <= a < i && 0 <= b < cols ==> m[a, b] == Entry(flat[..], cols, a, b)
    {
      for j := 0 to cols
        invariant forall a, b :: 0 <= a < i && 0 <= b < cols ==> m[a, b] == Entry(flat[..], cols, a, b)
        invariant forall b :: 0 <= b < j ==> m[i, b] == Entry(flat[..], cols, i, b)
      {
        RowBelow(i, j, rows, cols);
        m[i, j] := flat[i * cols + j];
      }
    }
  }

  /**
   * trees_mmdis: fills both trees' vectors from the root, builds the cost
   * matrix and returns the least total cost of a one-to-one matching of the
   * edges of t1 to those of t2.  The Hungarian solver the program calls is
   * not part of this model; the assignment solver of LapSolver stands in for
   * it, specified by the optimum it returns.
   */
  method TreesMmdis(t1: Ptree, t2: Ptree, ghost rank1: seq<nat>, ghost rank2: seq<nat>) returns (mmdis: int)
    requires t1.Valid() && t2.Valid() && t1.edge != t2.edge
    requires Ranked(t1.lchild[..], t1.rchild[..], rank1) && Ranked(t2.lchild[..], t2.rchild[..], rank2)
    requires SpeOk(t1) && SpeOk(t2) && t1.leafNumber == t2.leafNumber
    modifies t1.edge, t2.edge
    ensures Filled(t1.lchild[..], t1.rchild[..], rank1, t1.leafNumber, t1.leafNumber, old(LapSolver.Rows(t1.edge)), LapSolver.Rows(t1.edge))
    ensures Filled(t2.lchild[..], t2.rchild[..], rank2, t2.leafNumber, t2.leafNumber, old(LapSolver.Rows(t2.edge)), LapSolver.Rows(t2.edge))
    ensures Rowed(LapSolver.Rows(t1.edge), t1.leafNumber) && Rowed(LapSolver.Rows(t2.edge), t2.leafNumber)
    ensures mmdis == LapSolver.Optimum(CostMatrix(LapSolver.Rows(t1.edge), LapSolver.Rows(t2.edge), t1.leafNumber, Spe(t1), Spe(t2))).0
  {
    var root := t1.leafNumber;
    t1.PtTree(root, rank1);
    t2.PtTree(root, rank2);
    mmdis := SolveMatrix(t1, t2);
  }

  /** The part of trees_mmdis after the vectors are filled: the cost matrix and its optimal matching. */
  method SolveMatrix(t1: Ptree, t2: Ptree) returns (mmdis: int)
    requires SpeOk(t1) && SpeOk(t2) && t1.leafNumber == t2.leafNumber
    ensures Rowed(LapSolver.Rows(t1.edge), t1.leafNumber) && Rowed(LapSolver.Rows(t2.edge), t2.leafNumber)
    ensures mmdis == LapSolver.Optimum(CostMatrix(LapSolver.Rows(t1.edge), LapSolver.Rows(t2.edge), t1.leafNumber, Spe(t1), Spe(t2))).0
  {
    var range := t1.leafNumber - 3;
    var r := new int[range * range];
    ComputeMatrix(t1, t2, r, range);
    ghost var cm := CostMatrix(LapSolver.Rows(t1.edge), LapSolver.Rows(t2.edge), t1.leafNumber, Spe(t1), Spe(t2));
    mmdis := Assign(r, range, cm);
  }

  /** array_to_matrix and the assignment solver: the least total cost of the matrix r holds row by row. */
  method Assign(r: array<int>, range: int, ghost cm: seq<seq<int>>) returns (cost: int)
    requires |cm| == range && LapSolver.Square(cm) && r[..] == Flat(cm) && r.Length == range * range
    ensures cost == LapSolver.Optimum(cm).0
  {
    var m := ArrayToMatrix(r, range, range);
    var rowsol := new int[range];
    var colsol := new int[range];
    cost := LapSolver.LapShort(range, m, rowsol, colsol);
    Solved(cm, r[..], m, range, cost, rowsol[..]);
  }

  lemma Solved(cm: seq<seq<int>>, flat: seq<int>, m: array2<int>, range: int, cost: int, rowsol: seq<int>)
    requires |cm| == range && LapSolver.Square(cm) && flat == Flat(cm)
    requires m.Length0 == range && m.Length1 == range
    requires forall i, j :: 0 <= i < range && 0 <= j < range ==> m[i, j] == Entry(flat, range, i, j)
    requires LapSolver.IsPerm(rowsol, range) && cost == LapSolver.Total(LapSolver.Rows(m), rowsol)
    requires forall p :: LapSolver.IsPerm(p, range) ==> cost <= LapSolver.Total(LapSolver.Rows(m), p)
    ensures cost == LapSolver.Optimum(cm).0
  {
    var rm := LapSolver.Rows(m);
    forall i | 0 <= i < range
      ensures rm[i] == cm[i]
    {
      forall j | 0 <= j < range
        ensures rm[i][j] == cm[i][j]
      {
        FlatAt(cm, range, i, j);
      }
    }
    assert rm == cm;
    LapSolver.OptimalIsOptimum(cm, cost, rowsol);
  }

  /** A tree against itself has matching distance 0. */
  lemma MmdisSelfZero(e: seq<seq<int>>, n: int, spe: int)
    requires 3 <= n && Rowed(e, n) && n + 1 <= spe < 2 * n - 1
    ensures LapSolver.Optimum(CostMatrix(e, e, n, spe, spe)).0 == 0
  {
    var m := CostMatrix(e, e, n, spe, spe);
    forall a, b | 0 <= a < n - 3 && 0 <= b < n - 3
      ensures 0 <= m[a][b] <= n
    {
      CostBounds(e, Kept(n, spe, a), e, Kept(n, spe, b), n);
    }
    forall a | 0 <= a < n - 3
      ensures m[a][a] == 0
    {
      CostBounds(e, Kept(n, spe, a), e, Kept(n, spe, a), n);
    }
    LapSolver.OptimumZero(m, n);
  }

  /** The matching distance lies between 0 and (n-3) times half the leaves. */
  lemma MmdisBounds(ea: seq<seq<int>>, eb: seq<seq<int>>, n: int, spe1: int, spe2: int)
    requires 3 <= n && Rowed(ea, n) && Rowed(eb, n)
    requires n + 1 <= spe1 < 2 * n - 1 && n + 1 <= spe2 < 2 * n - 1
    ensures 0 <= LapSolver.Optimum(CostMatrix(ea, eb, n, spe1, spe2)).0 <= (n - 3) * (n / 2)
  {
    var m := CostMatrix(ea, eb, n, spe1, spe2);
    forall a, b | 0 <= a < n - 3 && 0 <= b < n - 3
      ensures 0 <= m[a][b] <= n / 2
    {
      CostBounds(ea, Kept(n, spe1, a), eb, Kept(n, spe2, b), n);
    }
    LapSolver.OptimumWithin(m, 0, n / 2);
  }
}
