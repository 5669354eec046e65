/**
 * RFMetric: the Robinson-Foulds distances RFMetric (on splits) and
 * RFClusterMetric (on clusters).  The elements of the first tree go into a
 * hash set; common counts the elements of the second tree found there; the
 * distance is (N1 + N2)/2 - common.
 */
module RFMetric {
  import opened Wrappers
  import opened PalTree
  import opened OptRF
  import SplitDist
  import ClusterDist

  /** How many entries of b (counted with repetition) lie in s. */
  function CommonOf<T>(s: set<T>, b: seq<T>): (c: nat)
    ensures c <= |b|
  {
    if b == [] then 0
    else CommonOf(s, b[..|b| - 1]) + (if b[|b| - 1] in s then 1 else 0)
  }

  /** (N1 + N2)·0.5 − common. */
  function RFDist(n1: nat, n2: nat, common: nat): real
  {
    (n1 as real + n2 as real) * 0.5 - common as real
  }

  /** The hash set of the elements of a, then the count of the entries of b in it. */
  method CountCommon<T(==)>(a: seq<T>, b: seq<T>) returns (common: nat)
    ensures common == CommonOf(Elems(a), b)
  {
    var hs: set<T> := {};
    for i := 0 to |a|
      invariant hs == Elems(a[..i])
    {
      assert a[..i + 1] == a[..i] + [a[i]];
      hs := hs + {a[i]};
    }
    assert a[..|a|] == a;
    common := 0;
    for i := 0 to |b|
      invariant common == CommonOf(hs, b[..i])
    {
      assert b[..i + 1][..i] == b[..i];
      if b[i] in hs {
        common := common + 1;
      }
    }
    assert b[..|b|] == b;
  }

  /** Over entries without repetition, common is the size of the intersection. */
  lemma {:induction false} CommonIsIntersection<T>(s: set<T>, b: seq<T>)
    requires Distinct(b)
    ensures CommonOf(s, b) == |s * Elems(b)|
  {
    if b != [] {
      var c := b[..|b| - 1];
      var x := b[|b| - 1];
      assert b == c + [x];
      assert Elems(b) == Elems(c) + {x};
      assert x !in Elems(c);
      CommonIsIntersection(s, c);
      if x in s {
        assert s * Elems(b) == s * Elems(c) + {x};
      } else {
        assert s * Elems(b) == s * Elems(c);
      }
    }
  }

  /** A set splits into the part outside B and the part inside B. */
  lemma CardParts<T>(A: set<T>, B: set<T>)
    ensures |A| == |A - B| + |A * B|
  {
    assert A == (A - B) + A * B;
    assert (A - B) !! A * B;
  }

  /** Two sets are equal exactly when both differences are empty. */
  lemma EqualIffNoDifference<T>(A: set<T>, B: set<T>)
    ensures A == B <==> |A - B| + |B - A| == 0
  {
    if |A - B| + |B - A| == 0 {
      assert A - B == {} && B - A == {};
      forall x | x in A ensures x in B {
        assert x !in A - B;
      }
      forall x | x in B ensures x in A {
        assert x !in B - A;
      }
    }
  }

  /**
   * For two element arrays without repetition, the distance is half the size
   * of the symmetric difference of their sets: never negative, and 0 exactly
   * when both trees have the same elements.
   */
  lemma RFIsHalfSymmetricDifference<T>(a: seq<T>, b: seq<T>)
    requires Distinct(a) && Distinct(b)
    ensures var d := RFDist(|a|, |b|, CommonOf(Elems(a), b));
            && d == (|Elems(a) - Elems(b)| + |Elems(b) - Elems(a)|) as real * 0.5
            && d >= 0.0
            && (d == 0.0 <==> Elems(a) == Elems(b))
  {
    var A, B := Elems(a), Elems(b);
    CommonIsIntersection(A, b);
    DistinctCard(a);
    DistinctCard(b);
    CardParts(A, B);
    CardParts(B, A);
    assert B * A == A * B;
    EqualIffNoDifference(A, B);
  }

  /** The distance getRFDistance returns: 0 for at most three leaves, else RF on the splits. */
  function SplitRF(t1: Tree, t2: Tree): real
    requires Shaped(t1) && Shaped(t2)
  {
    if |t1.names| <= 3 then 0.0
    else
      var g := LeafIdGroup(t1);
      var s1, s2 := SplitDist.TreeSplits(g, t1), SplitDist.TreeSplits(g, t2);
      RFDist(|s1|, |s2|, CommonOf(Elems(s1), s2))
  }

  /** The distance getRFClusterMetric returns: RF on the clusters, with no small-tree case. */
  function ClusterRF(t1: Tree, t2: Tree): real
    requires Shaped(t1) && Shaped(t2)
  {
    var g := LeafIdGroup(t1);
    var c1, c2 := ClusterDist.TreeClusters(g, t1), ClusterDist.TreeClusters(g, t2);
    RFDist(|c1|, |c2|, CommonOf(Elems(c1), c2))
  }

  /** getRFDistance; an exception (Failure) when a leaf of t2 is not among t1's. */
  method GetRFDistance(t1: Tree, t2: Tree) returns (r: Result<real, string>)
    requires Valid(t1) && Valid(t2)
    ensures |t1.names| <= 3 ==> r == Success(0.0)
    ensures |t1.names| > 3 ==>
              (r.Success? <==> InnerNamed(LeafIdGroup(t1), t2))
    ensures r.Success? ==> r.value == SplitRF(t1, t2)
  {
    var n := |t1.names|;
    if n <= 3 {
      return Success(0.0);
    }
    var idGroup := LeafIdGroup(t1);
    var sT1 := SplitDist.GetSplits(t1, idGroup);
    OwnNamed(t1);
    var sT2 := SplitDist.GetSplits(t2, idGroup);
    if sT2.Failure? {
      return Failure(sT2.error);
    }
    var common := CountCommon(sT1.value, sT2.value);
    return Success(RFDist(|sT1.value|, |sT2.value|, common));
  }

  /** getRFClusterMetric; an exception (Failure) when a leaf of t2 is not among t1's. */
  method GetRFClusterMetric(t1: Tree, t2: Tree) returns (r: Result<real, string>)
    requires Shaped(t1) && Shaped(t2)
    ensures r.Success? <==> InnerNamed(LeafIdGroup(t1), t2)
    ensures r.Success? ==> r.value == ClusterRF(t1, t2)
  {
    var idGroup := LeafIdGroup(t1);
    var bs1 := ClusterDist.RootedTree2BitSetArray(t1, idGroup);
    OwnNamed(t1);
    var bs2 := ClusterDist.RootedTree2BitSetArray(t2, idGroup);
    if bs2.Failure? {
      return Failure(bs2.error);
    }
    var common := CountCommon(bs1.value, bs2.value);
    return Success(RFDist(|bs1.value|, |bs2.value|, common));
  }
}
