/**
 * TripletMetric: the triplet distance.  For two rooted binary trees it counts,
 * for every leaf x, the pairs of other leaves whose lca with x is the same
 * node in the first tree and the same node in the second (getDistForBinary);
 * any other pair of trees goes to TripletMetric2.
 */
module TripletMetric {
  import opened PalTree
  import opened TreeCmpUtils
  import opened TreeCmpUtilsLca
  import opened ClustIntersectInfo
  import TripletMetric2
  import TreeCmpUtilsTriplets

  /** Pattern: the pair (a[x][i], b[x][i]); equal exactly when both components are. */
  datatype Pattern = Pattern(a: int, b: int)

  /** val·(val − 1)/2, as getDistForBinary computes it. */
  function PairsOf(v: int): int
  {
    v * (v - 1) / 2
  }

  lemma PairsOfStep(c: int)
    ensures PairsOf(c + 1) == PairsOf(c) + c
  {
    var y := c * (c - 1);
    assert (c + 1) * c == y + 2 * c;
    assert (y + 2 * c) / 2 == y / 2 + c;
  }

  /** Row x of a matrix, as a sequence of its first n entries. */
  function Row(a: array2<int>, x: nat, n: nat): (r: seq<int>)
    reads a
    requires x < a.Length0 && n <= a.Length1
    ensures |r| == n && forall i :: 0 <= i < n ==> r[i] == a[x, i]
  {
    seq(n, i requires 0 <= i < n reads a => a[x, i])
  }

  /** The patterns of the indices below i other than x, in index order. */
  function PatternsOf(ra: seq<int>, rb: seq<int>, x: nat, i: nat): (ps: seq<Pattern>)
    requires i <= |ra| && i <= |rb|
    ensures |ps| <= i
  {
    if i == 0 then []
    else PatternsOf(ra, rb, x, i - 1) + (if i - 1 == x then [] else [Pattern(ra[i - 1], rb[i - 1])])
  }

  /** The number of pairs of positions holding equal patterns: each entry with every earlier equal one. */
  function SamePairs(ps: seq<Pattern>): nat
  {
    if ps == [] then 0
    else SamePairs(ps[..|ps| - 1]) + multiset(ps[..|ps| - 1])[ps[|ps| - 1]]
  }

  /** patternMap after the patterns ps: each pattern seen, with its number of occurrences. */
  function Tally(ps: seq<Pattern>): map<Pattern, int>
  {
    if ps == [] then map[]
    else
      var m := Tally(ps[..|ps| - 1]);
      var p := ps[|ps| - 1];
      m[p := if p in m then m[p] + 1 else 1]
  }

  lemma TallySnoc(ps: seq<Pattern>, p: Pattern)
    ensures Tally(ps + [p]) == Tally(ps)[p := if p in Tally(ps) then Tally(ps)[p] + 1 else 1]
  {
    assert (ps + [p])[..|ps|] == ps;
  }

  lemma {:induction false} TallyCounts(ps: seq<Pattern>)
    ensures forall p :: p in Tally(ps) <==> p in multiset(ps)
    ensures forall p :: p in Tally(ps) ==> Tally(ps)[p] == multiset(ps)[p]
  {
    if ps != [] {
      var q := ps[..|ps| - 1];
      assert ps == q + [ps[|ps| - 1]];
      TallyCounts(q);
    }
  }

  /** Some key of a non-empty map. */
  ghost function Pick(m: map<Pattern, int>): (k: Pattern)
    requires m != map[]
    ensures k in m
  {
    var k :| k in m; k
  }

  /** The sum of PairsOf over the values of a map. */
  ghost function MapPairs(m: map<Pattern, int>): int
    decreases |m|
  {
    if m == map[] then 0
    else
      var k := Pick(m);
      assert |m - {k}| < |m| by { assert m.Keys == (m - {k}).Keys + {k}; }
      PairsOf(m[k]) + MapPairs(m - {k})
  }

  /** The sum does not depend on which key is taken first. */
  lemma {:induction false} MapPairsAt(m: map<Pattern, int>, k: Pattern)
    requires k in m
    ensures MapPairs(m) == PairsOf(m[k]) + MapPairs(m - {k})
    decreases |m|
  {
    var k' := Pick(m);
    if k' != k {
      assert m.Keys == (m - {k'}).Keys + {k'};
      assert m.Keys == (m - {k}).Keys + {k};
      MapPairsAt(m - {k'}, k);
      MapPairsAt(m - {k}, k');
      assert m - {k'} - {k} == m - {k} - {k'};
    }
  }

  /** A count as a listed value: itself when at least 2, else nothing. */
  function Big(v: int): multiset<int>
  {
    if v >= 2 then multiset{v} else multiset{}
  }

  /** The values of at least 2 of a map, with their multiplicities. */
  ghost function BigValues(m: map<Pattern, int>): multiset<int>
    decreases |m|
  {
    if m == map[] then multiset{}
    else
      var k := Pick(m);
      assert |m - {k}| < |m| by { assert m.Keys == (m - {k}).Keys + {k}; }
      Big(m[k]) + BigValues(m - {k})
  }

  /** The values do not depend on which key is taken first. */
  lemma {:induction false} BigValuesAt(m: map<Pattern, int>, k: Pattern)
    requires k in m
    ensures BigValues(m) == Big(m[k]) + BigValues(m - {k})
    decreases |m|
  {
    var k' := Pick(m);
    if k' != k {
      var A, B := m - {k'}, m - {k};
      assert m.Keys == A.Keys + {k'};
      assert m.Keys == B.Keys + {k};
      assert A - {k} == B - {k'};
      var C := A - {k};
      assert BigValues(m) == Big(m[k']) + BigValues(A);
      BigValuesAt(A, k);
      assert A[k] == m[k];
      BigValuesAt(B, k');
      assert B[k'] == m[k'];
      calc {
        BigValues(m);
        Big(m[k']) + (Big(m[k]) + BigValues(C));
        Big(m[k]) + (Big(m[k']) + BigValues(C));
        Big(m[k]) + BigValues(B);
      }
    }
  }

  /** The pairs read off the map are the pairs of equal patterns. */
  lemma {:induction false} TallyPairs(ps: seq<Pattern>)
    ensures MapPairs(Tally(ps)) == SamePairs(ps)
  {
    if ps != [] {
      var q := ps[..|ps| - 1];
      var p := ps[|ps| - 1];
      var T := Tally(q);
      TallyPairs(q);
      TallyCounts(q);
      if p in T {
        MapPairsAt(T[p := T[p] + 1], p);
        MapPairsAt(T, p);
        assert T[p := T[p] + 1] - {p} == T - {p};
        PairsOfStep(T[p]);
      } else {
        MapPairsAt(T[p := 1], p);
        assert T[p := 1] - {p} == T;
      }
    }
  }

  /** The sum of PairsOf over a list of counts. */
  function CountPairs(vs: seq<int>): int
  {
    if vs == [] then 0 else CountPairs(vs[..|vs| - 1]) + PairsOf(vs[|vs| - 1])
  }

  lemma PairsOfOne(v: int)
    requires v == 1
    ensures PairsOf(v) == 0
  {
  }

  lemma CountPairsSnoc(vs: seq<int>, v: int)
    ensures CountPairs(vs + [v]) == CountPairs(vs) + PairsOf(v)
  {
    assert (vs + [v])[..|vs|] == vs;
  }

  /** The first loop of getPatternNum: patternMap over the indices i ≠ x. */
  method CountPatterns(x: nat, a: array2<int>, b: array2<int>) returns (patternMap: map<Pattern, int>)
    requires x < a.Length0 && x < b.Length0 && a.Length0 <= a.Length1 && a.Length0 <= b.Length1
    ensures patternMap == Tally(PatternsOf(Row(a, x, a.Length0), Row(b, x, a.Length0), x, a.Length0))
  {
    var n := a.Length0;
    ghost var ra, rb := Row(a, x, n), Row(b, x, n);
    patternMap := map[];
    for i := 0 to n
      invariant patternMap == Tally(PatternsOf(ra, rb, x, i))
    {
      if i == x {
        assert PatternsOf(ra, rb, x, i + 1) == PatternsOf(ra, rb, x, i);
        continue;
      }
      var p := Pattern(a[x, i], b[x, i]);
      assert PatternsOf(ra, rb, x, i + 1) == PatternsOf(ra, rb, x, i) + [p];
      TallySnoc(PatternsOf(ra, rb, x, i), p);
      if p !in patternMap {
        patternMap := patternMap[p := 1];
      } else {
        var num := patternMap[p];
        patternMap := patternMap[p := num + 1];
      }
    }
  }

  /** The second loop's state: rest is what remains of m, and mList plus rest's listed values make up m's. */
  ghost predicate Listed(m: map<Pattern, int>, mList: seq<int>, rest: map<Pattern, int>)
  {
    && (forall q :: q in rest ==> q in m && rest[q] == m[q])
    && (forall k :: 0 <= k < |mList| ==> mList[k] >= 2)
    && multiset(mList) + BigValues(rest) == BigValues(m)
    && CountPairs(mList) + MapPairs(rest) == MapPairs(m)
  }

  /** Taking a key out of a map makes it smaller. */
  lemma Shrink(rest: map<Pattern, int>, p: Pattern)
    requires p in rest
    ensures |rest - {p}| < |rest|
  {
    assert rest.Keys == (rest - {p}).Keys + {p};
  }

  /** One pass of the second loop on a value of at least 2: key p leaves rest and its value joins the list. */
  lemma ListTake(m: map<Pattern, int>, mList: seq<int>, rest: map<Pattern, int>, p: Pattern)
    requires Listed(m, mList, rest) && p in rest && rest[p] >= 2
    ensures Listed(m, mList + [rest[p]], rest - {p})
  {
    var l := mList + [rest[p]];
    assert forall k :: 0 <= k < |l| ==> l[k] >= 2;
    BigValuesAt(rest, p);
    assert multiset(l) == multiset(mList) + Big(rest[p]);
    MapPairsAt(rest, p);
    CountPairsSnoc(mList, rest[p]);
  }

  /** One pass of the second loop on a value of 1: key p leaves rest and the list stays. */
  lemma ListSkip(m: map<Pattern, int>, mList: seq<int>, rest: map<Pattern, int>, p: Pattern)
    requires Listed(m, mList, rest) && p in rest && rest[p] == 1
    ensures Listed(m, mList, rest - {p})
  {
    BigValuesAt(rest, p);
    MapPairsAt(rest, p);
    PairsOfOne(rest[p]);
  }

  /** The second loop of getPatternNum: the values of at least 2, in the map's iteration order. */
  method ListCounts(patternMap: map<Pattern, int>) returns (mList: seq<int>)
    requires forall p :: p in patternMap ==> patternMap[p] >= 1
    ensures forall k :: 0 <= k < |mList| ==> mList[k] >= 2
    ensures multiset(mList) == BigValues(patternMap)
    ensures CountPairs(mList) == MapPairs(patternMap)
  {
    mList := [];
    var rest := patternMap;
    while rest != map[]
      invariant Listed(patternMap, mList, rest)
      decreases |rest|
    {
      var p :| p in rest;
      var val := rest[p];
      Shrink(rest, p);
      if val >= 2 {
        ListTake(patternMap, mList, rest, p);
        mList := mList + [val];
      } else {
        ListSkip(patternMap, mList, rest, p);
      }
      rest := rest - {p};
    }
  }
  /**
   * getPatternNum: the number of occurrences of each pattern (a[x][i], b[x][i])
   * over i ≠ x, and the list of the counts of at least 2, in the map's
   * iteration order: as a multiset, exactly the tally's values of at least 2.
   * What the caller makes of them is fixed: the sum of their val·(val − 1)/2 is
   * the number of pairs of indices with equal patterns.
   */
  method GetPatternNum(x: nat, a: array2<int>, b: array2<int>) returns (mList: seq<int>)
    requires x < a.Length0 && x < b.Length0 && a.Length0 <= a.Length1 && a.Length0 <= b.Length1
    ensures forall k :: 0 <= k < |mList| ==> mList[k] >= 2
    ensures multiset(mList) ==
              BigValues(Tally(PatternsOf(Row(a, x, a.Length0), Row(b, x, a.Length0), x, a.Length0)))
    ensures CountPairs(mList) ==
              SamePairs(PatternsOf(Row(a, x, a.Length0), Row(b, x, a.Length0), x, a.Length0))
  {
    var patternMap := CountPatterns(x, a, b);
    ghost var ps := PatternsOf(Row(a, x, a.Length0), Row(b, x, a.Length0), x, a.Length0);
    TallyPairs(ps);
    TallyCounts(ps);
    mList := ListCounts(patternMap);
  }

  /** The leaf-id row x of the lca matrix of t. */
  ghost function LcaRow(g: IdGroup, t: Tree, x: nat, n: nat): (r: seq<int>)
    requires Shaped(t)
    ensures |r| == n
  {
    seq(n, i => LcaSpec(g, t, |t.children|, x, i))
  }

  /** The pairs counted in the rows x' < x. */
  ghost function AlikePairs(g: IdGroup, t1: Tree, t2: Tree, x: nat, n: nat): nat
    requires Shaped(t1) && Shaped(t2)
  {
    if x == 0 then 0
    else AlikePairs(g, t1, t2, x - 1, n) + SamePairs(PatternsOf(LcaRow(g, t1, x - 1, n), LcaRow(g, t2, x - 1, n), x - 1, n))
  }

  /** The sum over one row's counts, as the inner loop of getDistForBinary adds them up. */
  method SumCounts(numList: seq<int>) returns (s: int)
    ensures s == CountPairs(numList)
  {
    s := 0;
    for k := 0 to |numList|
      invariant s == CountPairs(numList[..k])
    {
      assert numList[..k + 1][..k] == numList[..k];
      s := s + numList[k] * (numList[k] - 1) / 2;
    }
    assert numList[..|numList|] == numList;
  }

  /** C(n, 3), as getDistForBinary computes it. */
  function Choose3(n: int): int
  {
    n * (n - 1) * (n - 2) / 6
  }

  /** lca is the lca matrix of t over the ids below n. */
  ghost predicate LcaIs(lca: array2<int>, g: IdGroup, t: Tree, n: nat)
    reads lca
  {
    && Shaped(t) && lca.Length0 == n && n <= lca.Length1
    && forall x, y :: 0 <= x < n && 0 <= y < n ==> lca[x, y] == LcaSpec(g, t, |t.children|, x, y)
  }

  lemma RowIsLcaRow(lca: array2<int>, g: IdGroup, t: Tree, x: nat, n: nat)
    requires LcaIs(lca, g, t, n) && x < n
    ensures Row(lca, x, n) == LcaRow(g, t, x, n)
  {
  }

  /** The loop over the rows of getDistForBinary. */
  method CommonTriplets(lcaMatrix1: array2<int>, lcaMatrix2: array2<int>, ghost g: IdGroup, ghost t1: Tree,
                        ghost t2: Tree, n: nat) returns (commonT: int)
    requires LcaIs(lcaMatrix1, g, t1, n) && LcaIs(lcaMatrix2, g, t2, n)
    ensures commonT == AlikePairs(g, t1, t2, n, n)
  {
    commonT := 0;
    for i := 0 to n
      invariant commonT == AlikePairs(g, t1, t2, i, n)
    {
      var numList := GetPatternNum(i, lcaMatrix1, lcaMatrix2);
      RowIsLcaRow(lcaMatrix1, g, t1, i, n);
      RowIsLcaRow(lcaMatrix2, g, t2, i, n);
      var s := SumCounts(numList);
      commonT := commonT + s;
    }
  }

  /**
   * getDistForBinary: the lca matrices of both trees over the leaf ids of t1,
   * and C(n, 3) minus the pairs of leaves the two trees place alike as seen
   * from each leaf.
   */
  method GetDistForBinary(t1: Tree, t2: Tree) returns (dist: real)
    requires LcaReady(t1, LeafIdGroup(t1)) && LcaReady(t2, LeafIdGroup(t1))
    ensures dist == (Choose3(|t1.names|) - AlikePairs(LeafIdGroup(t1), t1, t2, |t1.names|, |t1.names|)) as real
  {
    var id1 := LeafIdGroup(t1);
    var lcaMatrix1 := CalcLcaMatrix(t1, id1);
    var lcaMatrix2 := CalcLcaMatrix(t2, id1);
    var n := lcaMatrix1.Length0;
    var commonT := CommonTriplets(lcaMatrix1, lcaMatrix2, id1, t1, t2, n);
    dist := (n * (n - 1) * (n - 2) / 6 - commonT) as real;
  }

  /**
   * getDistance: getDistForBinary when both trees are rooted binary, else
   * TripletMetric2 (then `cIM` is the intersection table it used).
   */
  method GetDistance(t1: Tree, t2: Tree) returns (dist: real, ghost cIM: ClustIntersectInfoMatrix?)
    requires LcaReady(t1, LeafIdGroup(t1)) && LcaReady(t2, LeafIdGroup(t1))
    ensures Binary(t1, true) && Binary(t2, true) ==>
              cIM == null &&
              dist == (Choose3(|t1.names|) - AlikePairs(LeafIdGroup(t1), t1, t2, |t1.names|, |t1.names|)) as real
    ensures !(Binary(t1, true) && Binary(t2, true)) ==>
              && cIM != null && fresh(cIM) && TreeCmpUtilsTriplets.Ready(cIM)
              && cIM.t1 == t1 && cIM.t2 == t2 && cIM.idGroup == LeafIdGroup(t1)
              && dist == (TreeCmpUtilsTriplets.ResolvedSum(t2, TripletMetric2.CladeSizesOf(t2), t2.post)
                          - TreeCmpUtilsTriplets.EqualSum(cIM, t1.post, t2.post)
                          + TreeCmpUtilsTriplets.OnlySum(cIM, t1.post, t2.post)) as real
  {
    var b1 := IsBinary(t1, true);
    var b2 := IsBinary(t2, true);
    if b1 && b2 {
      dist := GetDistForBinary(t1, t2);
      cIM := null;
      return;
    }
    dist, cIM := TripletMetric2.GetDistance(t1, t2);
  }

  /** Exchanging the two components of every pattern. */
  function Swap(ps: seq<Pattern>): (r: seq<Pattern>)
    ensures |r| == |ps|
  {
    if ps == [] then [] else Swap(ps[..|ps| - 1]) + [Pattern(ps[|ps| - 1].b, ps[|ps| - 1].a)]
  }

  lemma {:induction false} SwapCount(ps: seq<Pattern>, p: Pattern)
    ensures multiset(Swap(ps))[Pattern(p.b, p.a)] == multiset(ps)[p]
  {
    if ps != [] {
      var q := ps[..|ps| - 1];
      assert ps == q + [ps[|ps| - 1]];
      SwapCount(q, p);
    }
  }

  /** The pattern count treats the two matrices alike: exchanging them changes nothing. */
  lemma {:induction false} SamePairsSwap(ps: seq<Pattern>)
    ensures SamePairs(Swap(ps)) == SamePairs(ps)
  {
    if ps != [] {
      var q := ps[..|ps| - 1];
      var p := ps[|ps| - 1];
      SamePairsSwap(q);
      SwapCount(q, p);
      assert Swap(ps)[..|ps| - 1] == Swap(q);
    }
  }
}
