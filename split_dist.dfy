/**
 * SplitDist: distances between splits (bipartitions of the leaf set) and the
 * split system of a pal tree.
 *
 * A split is either a boolean array over the leaf positions or a
 * java.util.BitSet, here a set of ints; the two forms are tied together by
 * BitsOf.  A split and its complement stand for the same bipartition, so the
 * distances fold a count x of mismatching positions to min(x, n − x).
 */
module SplitDist {
  import opened Wrappers
  import opened PalTree
  import opened TreeCmpUtils

  /** The positions below |s1| where the two arrays differ. */
  function Mismatches(s1: seq<bool>, s2: seq<bool>): nat
    requires |s1| <= |s2|
  {
    if s1 == [] then 0
    else Mismatches(s1[..|s1| - 1], s2) + (if s1[|s1| - 1] != s2[|s1| - 1] then 1 else 0)
  }

  /** The positions of s that are true. */
  function Trues(s: seq<bool>): nat
  {
    if s == [] then 0 else Trues(s[..|s| - 1]) + (if s[|s| - 1] then 1 else 0)
  }

  /** A count and the count of its complement in n, the smaller one. */
  function MinFold(x: int, n: int): int
  {
    if x < n - x then x else n - x
  }

  function Complement(s: seq<bool>): (r: seq<bool>)
    ensures |r| == |s| && forall i :: 0 <= i < |s| ==> r[i] == !s[i]
  {
    seq(|s|, i requires 0 <= i < |s| => !s[i])
  }

  /** The bit set of a boolean array: the positions that are true. */
  function BitsOf(s: seq<bool>): set<int>
  {
    set i | 0 <= i < |s| && s[i]
  }

  function BitsBelow(s: seq<bool>, k: nat): set<int>
    requires k <= |s|
  {
    set i | 0 <= i < k && s[i]
  }

  /** BitSet.xor: the symmetric difference. */
  function Xor(a: set<int>, b: set<int>): set<int>
  {
    (a - b) + (b - a)
  }

  // ---------------------------------------------------------------------------
  // Boolean-array distances

  /** getDist1Int: n − max(eq, neq), the matching distance of two splits. */
  method GetDist1Int(split1: seq<bool>, split2: seq<bool>) returns (d: int)
    requires |split1| <= |split2|
    ensures d == MinFold(Mismatches(split1, split2), |split1|)
  {
    var n := |split1|;
    var eq, neq := 0, 0;
    for i := 0 to n
      invariant neq == Mismatches(split1[..i], split2) && eq == i - neq
    {
      Snoc(split1, i);
      if split1[i] == split2[i] {
        eq := eq + 1;
      } else {
        neq := neq + 1;
      }
    }
    Whole(split1);
    var q;
    if eq > neq {
      q := eq;
    } else {
      q := neq;
    }
    d := n - q;
  }

  /** The folded distance is at most half of n and never negative. */
  lemma MinFoldBounds(x: int, n: int)
    requires 0 <= x <= n
    ensures 0 <= MinFold(x, n) && 2 * MinFold(x, n) <= n
  {
  }

  lemma {:induction false} MismatchesBound(s1: seq<bool>, s2: seq<bool>)
    requires |s1| <= |s2|
    ensures Mismatches(s1, s2) <= |s1|
  {
    if s1 != [] {
      MismatchesBound(s1[..|s1| - 1], s2);
    }
  }

  /** Against a complemented split, matching and mismatching positions swap. */
  lemma {:induction false} MismatchesComplement(s1: seq<bool>, s2: seq<bool>)
    requires |s1| <= |s2|
    ensures Mismatches(s1, Complement(s2)) == |s1| - Mismatches(s1, s2)
  {
    if s1 != [] {
      MismatchesComplement(s1[..|s1| - 1], s2);
      MismatchesBound(s1[..|s1| - 1], s2);
    }
  }

  /** getDist1Int gives the same distance for a split and its complement, and at most n/2. */
  lemma Dist1Complement(s1: seq<bool>, s2: seq<bool>)
    requires |s1| <= |s2|
    ensures MinFold(Mismatches(s1, Complement(s2)), |s1|) == MinFold(Mismatches(s1, s2), |s1|)
    ensures 2 * MinFold(Mismatches(s1, s2), |s1|) <= |s1|
  {
    MismatchesComplement(s1, s2);
    MismatchesBound(s1, s2);
  }

  /** getMinSize: the size of the smaller side of the split. */
  method GetMinSize(split: seq<bool>) returns (r: int)
    ensures r == MinFold(Trues(split), |split|)
  {
    var n := |split|;
    var sTrue := 0;
    for i := 0 to n
      invariant sTrue == Trues(split[..i])
    {
      Snoc(split, i);
      if split[i] {
        sTrue := sTrue + 1;
      }
    }
    Whole(split);
    r := if sTrue < n - sTrue then sTrue else n - sTrue;
  }

  /** getMaxSize: the size of the larger side, so the two sizes add up to n. */
  method GetMaxSize(split: seq<bool>) returns (max: int)
    ensures max + MinFold(Trues(split), |split|) == |split|
    ensures 2 * max >= |split|
  {
    var n := |split|;
    var min := GetMinSize(split);
    max := n - min;
  }

  // ---------------------------------------------------------------------------
  // Bit-set distances

  /** getDist1Bit: the xor is taken on a copy, and folded against n. */
  function GetDist1Bit(split1: set<int>, split2: set<int>, n: int): (d: int)
    ensures d <= |Xor(split1, split2)| && d <= n - |Xor(split1, split2)|
    ensures d == |Xor(split1, split2)| || d == n - |Xor(split1, split2)|
  {
    var neq := |Xor(split1, split2)|;
    var eq := n - neq;
    if neq < eq then neq else eq
  }

  /** getDistToOAsMinBit: the smaller side of the split. */
  function GetDistToOAsMinBit(split: set<int>, n: int): (d: int)
    ensures d <= |split| && d <= n - |split|
    ensures d == |split| || d == n - |split|
  {
    var t := |split|;
    var f := n - t;
    if t < f then t else f
  }

  lemma BitsBelowStep(s: seq<bool>, k: nat)
    requires k < |s|
    ensures BitsBelow(s, k + 1) == BitsBelow(s, k) + (if s[k] then {k} else {})
    ensures k !in BitsBelow(s, k)
  {
  }

  lemma XorStep(a: set<int>, b: set<int>, x: bool, y: bool, k: int)
    requires k !in a && k !in b
    ensures Xor(a + (if x then {k} else {}), b + (if y then {k} else {})) == Xor(a, b) + (if x != y then {k} else {})
    ensures k !in Xor(a, b)
  {
  }

  lemma {:induction false} XorCounts(s1: seq<bool>, s2: seq<bool>, k: nat)
    requires k <= |s1| == |s2|
    ensures |Xor(BitsBelow(s1, k), BitsBelow(s2, k))| == Mismatches(s1[..k], s2)
  {
    if k > 0 {
      XorCounts(s1, s2, k - 1);
      assert s1[..k][..k - 1] == s1[..k - 1];
      BitsBelowStep(s1, k - 1);
      BitsBelowStep(s2, k - 1);
      XorStep(BitsBelow(s1, k - 1), BitsBelow(s2, k - 1), s1[k - 1], s2[k - 1], k - 1);
    }
  }

  lemma {:induction false} TruesCount(s: seq<bool>, k: nat)
    requires k <= |s|
    ensures |BitsBelow(s, k)| == Trues(s[..k])
  {
    if k > 0 {
      TruesCount(s, k - 1);
      assert s[..k][..k - 1] == s[..k - 1];
      if s[k - 1] {
        assert BitsBelow(s, k) == BitsBelow(s, k - 1) + {k - 1};
      } else {
        assert BitsBelow(s, k) == BitsBelow(s, k - 1);
      }
    }
  }

  /** The bit-set distances agree with the boolean-array ones on the same splits. */
  lemma BitDistancesAgree(s1: seq<bool>, s2: seq<bool>)
    requires |s1| == |s2|
    ensures GetDist1Bit(BitsOf(s1), BitsOf(s2), |s1|) == MinFold(Mismatches(s1, s2), |s1|)
    ensures GetDistToOAsMinBit(BitsOf(s1), |s1|) == MinFold(Trues(s1), |s1|)
  {
    XorCounts(s1, s2, |s1|);
    TruesCount(s1, |s1|);
    assert BitsBelow(s1, |s1|) == BitsOf(s1);
    assert BitsBelow(s2, |s2|) == BitsOf(s2);
    Whole(s1);
  }

  // ---------------------------------------------------------------------------
  // getSplits

  /** BitSet.flip(0, n): the bits below n are inverted, the others kept. */
  function Flip(c: set<int>, n: nat): set<int>
  {
    Xor(c, RangeSet(n))
  }

  /** A standard split has bit 0 set: a cluster without leaf 0 is replaced by its complement. */
  function Standard(c: set<int>, n: nat): set<int>
  {
    if 0 in c then c else Flip(c, n)
  }

  /** Standard splits always hold leaf 0. */
  lemma StandardHasZero(c: set<int>, n: nat)
    requires n >= 1
    ensures 0 in Standard(c, n)
  {
    RangeSetCard(n);
  }

  /** A split and its complement have the same standard form. */
  lemma StandardOfFlip(c: set<int>, n: nat)
    requires n >= 1 && forall x :: x in c ==> 0 <= x < n
    ensures Standard(Flip(c, n), n) == Standard(c, n)
  {
    RangeSetCard(n);
    if 0 in c {
      assert Flip(Flip(c, n), n) == c;
    }
  }

  /** Complementing one split inside the leaf range leaves getDist1Bit unchanged. */
  lemma Dist1BitFlip(a: set<int>, b: set<int>, n: nat)
    requires forall x :: x in a ==> 0 <= x < n
    requires forall x :: x in b ==> 0 <= x < n
    ensures GetDist1Bit(Flip(a, n), b, n) == GetDist1Bit(a, b, n)
  {
    XorFlip(a, b, n);
    ComplementCard(Xor(a, b), n);
  }

  /** The complement of a subset of the leaf range has the remaining size. */
  lemma ComplementCard(x: set<int>, n: nat)
    requires x <= RangeSet(n)
    ensures |RangeSet(n) - x| == n - |x|
  {
    RangeSetCard(n);
    var all: set<int> := RangeSet(n);
    assert all == (all - x) + x;
  }

  /** The xor with a complemented split is the complement of the xor. */
  lemma XorFlip(a: set<int>, b: set<int>, n: nat)
    requires forall x :: x in a ==> 0 <= x < n
    requires forall x :: x in b ==> 0 <= x < n
    ensures Xor(a, b) <= RangeSet(n)
    ensures Xor(Flip(a, n), b) == RangeSet(n) - Xor(a, b)
  {
    RangeSetCard(n);
    forall x | x in Xor(a, b)
      ensures x in RangeSet(n)
    {
      var l: nat := x;
      assert l < n;
    }
    forall x | x in Xor(Flip(a, n), b)
      ensures x in RangeSet(n) - Xor(a, b)
    {
    }
    forall x | x in RangeSet(n) - Xor(a, b)
      ensures x in Xor(Flip(a, n), b)
    {
    }
  }

  /** The union of the leaf ids of a node's children, or None when a leaf child is unnamed. */
  method ChildBits(t: Tree, g: IdGroup, p: nat, ind: nat, splits: array<set<int>>) returns (r: Option<set<int>>)
    requires Valid(t) && p < |t.post| && t.post[p] == Int(ind) && ind < RootIndex(t)
    requires splits.Length == RootIndex(t)
    requires forall a :: 0 <= a < RootIndex(t) && Int(a) in t.post[..p] ==>
               splits[a] == Cluster(g, t, Int(a)) && NamedBelow(g, t, Int(a))
    ensures r.Some? <==> NamedBelow(g, t, Int(ind))
    ensures r.Some? ==> r.value == Cluster(g, t, Int(ind))
  {
    var ch := t.children[ind];
    assert ChildrenBefore(t, p);
    var bs: set<int> := {};
    for i := 0 to |ch|
      invariant forall k :: 0 <= k < i ==> ChildOk(t, ind, ch[k]) && NamedBelow(g, t, ch[k])
      invariant bs == ClusterOfList(g, t, ch[..i], ind)
    {
      var child := ch[i];
      assert child in t.post[..p];
      assert ChildOk(t, ind, child);
      Snoc(ch, i);
      if child.Ext? {
        var leafId := IdOf(g, t.names[child.i]);
        if leafId < 0 {
          assert !NamedBelow(g, t, Int(ind)) by {
            LeavesOfListHas(t, ch, ind, child.i);
          }
          return None;
        }
        bs := bs + {leafId};
      } else {
        var childInd := child.i;
        bs := bs + splits[childInd];
      }
    }
    Whole(ch);
    NamedOfList(g, t, ch, ind);
    return Some(bs);
  }

  /** The splits getSplits returns for t over g: the standard split of every internal node but the root. */
  function TreeSplits(g: IdGroup, t: Tree): (s: seq<set<int>>)
    requires Shaped(t)
    ensures |s| == RootIndex(t)
  {
    seq(RootIndex(t), i requires 0 <= i < RootIndex(t) => Standard(Cluster(g, t, Int(i)), |t.names|))
  }

  /** What getSplits returned is TreeSplits. */
  lemma SplitsAre(s: seq<set<int>>, g: IdGroup, t: Tree)
    requires Shaped(t) && |s| == RootIndex(t)
    requires forall i :: 0 <= i < |s| ==> s[i] == Standard(Cluster(g, t, Int(i)), |t.names|)
    ensures s == TreeSplits(g, t)
  {
  }

  /** getSplits: the standard split of every internal node but the root, indexed by node
      number; Failure when a leaf below one of them is missing from the id group. */
  method GetSplits(t: Tree, idGroup: IdGroup) returns (r: Result<seq<set<int>>, string>)
    requires Valid(t)
    ensures r.Success? <==> InnerNamed(idGroup, t)
    ensures r.Success? ==> |r.value| == |t.children| - 1
    ensures r.Success? ==> forall i :: 0 <= i < |r.value| ==>
              r.value[i] == Standard(Cluster(idGroup, t, Int(i)), |t.names|)
    ensures r.Success? && |t.names| >= 1 ==> forall i :: 0 <= i < |r.value| ==> 0 in r.value[i]
    ensures r.Success? ==> r.value == TreeSplits(idGroup, t)
  {
    var n := |t.names|;
    var size := |t.children| - 1;
    var splits := new set<int>[size];
    var ok := WalkSplits(t, idGroup, splits);
    if !ok {
      return Failure("leaf id out of range");
    }
    ghost var walked := splits[..];
    StandardizeSplits(splits, n);
    if n >= 1 {
      forall i | 0 <= i < size
        ensures 0 in splits[i]
      {
        StandardHasZero(walked[i], n);
      }
    }
    SplitsAre(splits[..], idGroup, t);
    return Success(splits[..]);
  }

  /** The post-order walk of getSplits, from the first node up to the root. */
  method WalkSplits(t: Tree, idGroup: IdGroup, splits: array<set<int>>) returns (ok: bool)
    requires Valid(t) && splits.Length == |t.children| - 1
    modifies splits
    ensures ok <==> InnerNamed(idGroup, t)
    ensures ok ==> forall a :: 0 <= a < splits.Length ==> splits[a] == Cluster(idGroup, t, Int(a))
  {
    var size := splits.Length;
    var p := 0;
    var last := |t.post| - 1;
    while t.post[p] != Root(t)
      invariant p <= last
      invariant forall a :: 0 <= a < size && Int(a) in t.post[..p] ==>
                  splits[a] == Cluster(idGroup, t, Int(a)) && NamedBelow(idGroup, t, Int(a))
      decreases last - p
    {
      var curNode := t.post[p];
      Snoc(t.post, p);
      if curNode.Int? {
        var ind := curNode.i;
        var bs := ChildBits(t, idGroup, p, ind, splits);
        if bs.None? {
          return false;
        }
        splits[ind] := bs.value;
      }
      p := p + 1;
    }
    AllInnerVisited(t, p, idGroup, splits);
    return true;
  }

  /** The standardisation loop of getSplits: a split without bit 0 is flipped over 0..n−1. */
  method StandardizeSplits(splits: array<set<int>>, n: nat)
    modifies splits
    ensures forall a :: 0 <= a < splits.Length ==> splits[a] == Standard(old(splits[a]), n)
  {
    for i := 0 to splits.Length
      invariant forall a :: 0 <= a < i ==> splits[a] == Standard(old(splits[a]), n)
      invariant forall a :: i <= a < splits.Length ==> splits[a] == old(splits[a])
    {
      if 0 !in splits[i] {
        splits[i] := Flip(splits[i], n);
      }
    }
  }

  /** When the walk reaches the root, every other internal node has been visited. */
  lemma AllInnerVisited(t: Tree, p: nat, g: IdGroup, splits: array<set<int>>)
    requires Valid(t) && p < |t.post| && t.post[p] == Root(t) && splits.Length == |t.children| - 1
    requires forall a :: 0 <= a < splits.Length && Int(a) in t.post[..p] ==>
               splits[a] == Cluster(g, t, Int(a)) && NamedBelow(g, t, Int(a))
    ensures InnerNamed(g, t)
    ensures forall a :: 0 <= a < splits.Length ==> splits[a] == Cluster(g, t, Int(a))
  {
    var last := |t.post| - 1;
    assert p == last;
    forall a | 0 <= a < splits.Length
      ensures Int(a) in t.post[..p]
    {
      assert Int(a) in t.post;
      var k :| 0 <= k < |t.post| && t.post[k] == Int(a);
      assert t.post[..p][k] == Int(a);
    }
  }
}
