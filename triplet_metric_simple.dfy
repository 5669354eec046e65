/**
 * TripletMetricSimple: the O(n^3) triplet distance.  Every triple of leaf ids
 * i < j < k is classified in both trees from their nodal-splitted matrices,
 * and the distance is the number of triples whose classes differ.
 */
module TripletMetricSimple {
  import opened PalTree
  import opened TreeCmpUtilsLca
  import opened LcaOrder

  /**
   * getTripletType on the four entries it reads: ji = ns[j][i], jk = ns[j][k],
   * ij = ns[i][j], ik = ns[i][k].  The class is the leaf whose lca with the
   * other two is nearest the root (i for (i,(j,k)), k for (k,(i,j)), j for
   * (j,(i,k))), or -1 for an unresolved triple.
   */
  function Classify(i: int, j: int, k: int, ji: int, jk: int, ij: int, ik: int): (r: int)
    ensures r == i || r == j || r == k || r == -1
    ensures ji > jk ==> r == i
    ensures ji < jk ==> r == k
    ensures ji == jk ==> r == (if ij > ik then j else -1)
  {
    if ji > jk then i
    else if ji < jk then k
    else if ij > ik then j
    else -1
  }

  /**
   * getTripletType on a nodal-splitted matrix.  When ns is the matrix of a tree,
   * the result is the tree's class of the triple, which TypeOfMeaning reads off
   * the three lcas.
   */
  function GetTripletType(i: nat, j: nat, k: nat, ns: array2<int>): (r: int)
    reads ns
    requires i < ns.Length0 && j < ns.Length0 && i < ns.Length1 && j < ns.Length1 && k < ns.Length1
    ensures r == i || r == j || r == k || r == -1
    ensures forall g: IdGroup, t: Tree, n: nat {:trigger NodalIs(ns, g, t, n)} ::
              NodalIs(ns, g, t, n) && i < n && j < n && k < n ==> r == TypeOf(g, t, i, j, k)
  {
    Classify(i, j, k, ns[j, i], ns[j, k], ns[i, j], ns[i, k])
  }

  /** The class of triple (i, j, k) in tree t, over leaf ids g. */
  ghost function TypeOf(g: IdGroup, t: Tree, i: int, j: int, k: int): int
    requires Shaped(t)
  {
    var N := |t.children|;
    Classify(i, j, k, NodalSpec(g, t, N, j, i), NodalSpec(g, t, N, j, k),
             NodalSpec(g, t, N, i, j), NodalSpec(g, t, N, i, k))
  }

  /**
   * What the class means, for three different leaves i, j, k of a tree whose
   * parent links match its child lists, with u = lca(i,j), v = lca(j,k) and
   * w = lca(i,k): i exactly when v lies strictly below u = w, j exactly when
   * w lies strictly below u = v, k exactly when u lies strictly below v = w,
   * and -1 (unresolved) exactly when the three lcas coincide.
   */
  lemma TypeOfMeaning(g: IdGroup, t: Tree, i: nat, j: nat, k: nat)
    requires LcaReady(t, g) && Linked(t)
    requires i < |t.names| && j < |t.names| && k < |t.names| && i != j && j != k && i != k
    ensures var xi, xj, xk := IdOf(g, t.names[i]), IdOf(g, t.names[j]), IdOf(g, t.names[k]);
      var u, v, w := LcaOf(g, t, i, j), LcaOf(g, t, j, k), LcaOf(g, t, i, k);
      var c := TypeOf(g, t, xi, xj, xk);
      && (c == xi <==> StrictlyBelow(t, v, u) && u == w)
      && (c == xj <==> StrictlyBelow(t, w, u) && u == v)
      && (c == xk <==> StrictlyBelow(t, u, v) && v == w)
      && (c == -1 <==> u == v && v == w)
  {
    NodalRows(g, t, i, j, k);
    TripleShape(g, t, i, j, k);
    TripleDistances(g, t, i, j, k);
  }

  /** The four entries getTripletType reads, as distances up to the three lcas. */
  lemma NodalRows(g: IdGroup, t: Tree, i: nat, j: nat, k: nat)
    requires LcaReady(t, g)
    requires i < |t.names| && j < |t.names| && k < |t.names| && i != j && j != k && i != k
    ensures var xi, xj, xk := IdOf(g, t.names[i]), IdOf(g, t.names[j]), IdOf(g, t.names[k]);
      var u, v, w := LcaOf(g, t, i, j), LcaOf(g, t, j, k), LcaOf(g, t, i, k);
      var N := |t.children|;
      && 0 <= xi && 0 <= xj && 0 <= xk && xi != xj && xj != xk && xi != xk
      && 0 <= u < N && 0 <= v < N && 0 <= w < N
      && NodalSpec(g, t, N, xj, xi) == Dist(t, u, j) && NodalSpec(g, t, N, xj, xk) == Dist(t, v, j)
      && NodalSpec(g, t, N, xi, xj) == Dist(t, u, i) && NodalSpec(g, t, N, xi, xk) == Dist(t, w, i)
  {
    AliasInRange(g, t, i);
    AliasInRange(g, t, j);
    AliasInRange(g, t, k);
    AliasInjective(g, t, i, j);
    AliasInjective(g, t, j, k);
    AliasInjective(g, t, i, k);
    LcaFacts(g, t, j, i);
    LcaFacts(g, t, j, k);
    LcaFacts(g, t, i, j);
    LcaFacts(g, t, i, k);
  }

  /** As getTripletType remarks: once ns[j][i] == ns[j][k], ns[i][j] < ns[i][k] cannot happen. */
  lemma NoSmallerSecondRow(g: IdGroup, t: Tree, i: nat, j: nat, k: nat)
    requires LcaReady(t, g) && Linked(t)
    requires i < |t.names| && j < |t.names| && k < |t.names| && i != j && j != k && i != k
    ensures var xi, xj, xk := IdOf(g, t.names[i]), IdOf(g, t.names[j]), IdOf(g, t.names[k]);
      var N := |t.children|;
      NodalSpec(g, t, N, xj, xi) == NodalSpec(g, t, N, xj, xk) ==>
        NodalSpec(g, t, N, xi, xj) >= NodalSpec(g, t, N, xi, xk)
  {
    NodalRows(g, t, i, j, k);
    TripleShape(g, t, i, j, k);
    TripleDistances(g, t, i, j, k);
  }

  /** All triples count when `all`; otherwise those classified alike in both trees. */
  ghost predicate Counted(g: IdGroup, t1: Tree, t2: Tree, all: bool, i: int, j: int, k: int)
    requires Shaped(t1) && Shaped(t2)
  {
    all || TypeOf(g, t1, i, j, k) == TypeOf(g, t2, i, j, k)
  }

  /** The counted triples (i, j, k') with j < k' < k. */
  ghost function CountK(g: IdGroup, t1: Tree, t2: Tree, all: bool, i: int, j: int, k: int): nat
    requires Shaped(t1) && Shaped(t2)
    decreases k - j
  {
    if k <= j + 1 then 0
    else CountK(g, t1, t2, all, i, j, k - 1) + (if Counted(g, t1, t2, all, i, j, k - 1) then 1 else 0)
  }

  /** The counted triples (i, j', k) with i < j' < j and j' < k < n. */
  ghost function CountJ(g: IdGroup, t1: Tree, t2: Tree, all: bool, i: int, j: int, n: int): nat
    requires Shaped(t1) && Shaped(t2)
    decreases j - i
  {
    if j <= i + 1 then 0
    else CountJ(g, t1, t2, all, i, j - 1, n) + CountK(g, t1, t2, all, i, j - 1, n)
  }

  /** The counted triples i' < j < k < n with i' < i. */
  ghost function CountI(g: IdGroup, t1: Tree, t2: Tree, all: bool, i: nat, n: int): nat
    requires Shaped(t1) && Shaped(t2)
  {
    if i == 0 then 0
    else CountI(g, t1, t2, all, i - 1, n) + CountJ(g, t1, t2, all, i - 1, n, n)
  }

  /** The triples of leaf ids below n, and those classified alike in both trees. */
  ghost function AllTriples(g: IdGroup, t1: Tree, t2: Tree, n: nat): nat
    requires Shaped(t1) && Shaped(t2)
  {
    CountI(g, t1, t2, true, n, n)
  }

  ghost function AlikeTriples(g: IdGroup, t1: Tree, t2: Tree, n: nat): nat
    requires Shaped(t1) && Shaped(t2)
  {
    CountI(g, t1, t2, false, n, n)
  }

  /** ns is the nodal-splitted matrix of t over the ids below n. */
  ghost predicate NodalIs(ns: array2<int>, g: IdGroup, t: Tree, n: nat)
    reads ns
  {
    && Shaped(t) && n <= ns.Length0 && n <= ns.Length1
    && forall x, y :: 0 <= x < n && 0 <= y < n ==> ns[x, y] == NodalSpec(g, t, |t.children|, x, y)
  }

  /** The counters of getDistForArbitrary after some triples. */
  datatype Counters = Counters(unResolvedT1: nat, unResolvedT2: nat, unResolvedCommon: nat,
                               resolvedCommon: nat, sum: nat)

  /** The class of one triple in both trees, and the counters updated as the loop body does. */
  method Visit(c: Counters, ns1: array2<int>, ns2: array2<int>, ghost g: IdGroup, ghost t1: Tree, ghost t2: Tree,
               i: nat, j: nat, k: nat, ghost n: nat) returns (c': Counters)
    requires NodalIs(ns1, g, t1, n) && NodalIs(ns2, g, t2, n) && i < n && j < n && k < n
    ensures c'.unResolvedT2 - c'.unResolvedT1 == c.unResolvedT2 - c.unResolvedT1
    ensures c'.unResolvedCommon + c'.resolvedCommon ==
              c.unResolvedCommon + c.resolvedCommon + (if Counted(g, t1, t2, false, i, j, k) then 1 else 0)
    ensures c'.sum == c.sum + 1
  {
    var type1 := GetTripletType(i, j, k, ns1);
    var type2 := GetTripletType(i, j, k, ns2);
    assert type1 == TypeOf(g, t1, i, j, k) && type2 == TypeOf(g, t2, i, j, k);
    c' := c;
    if type1 == -1 {
      c' := c'.(unResolvedT1 := c'.unResolvedT1 + 1);
    }
    if type1 == -1 {
      c' := c'.(unResolvedT2 := c'.unResolvedT2 + 1);
    }
    if type1 == type2 {
      if type1 == -1 {
        c' := c'.(unResolvedCommon := c'.unResolvedCommon + 1);
      } else {
        c' := c'.(resolvedCommon := c'.resolvedCommon + 1);
      }
    }
    c' := c'.(sum := c'.sum + 1);
  }

  /** The innermost loop: k from j + 1 to n - 1. */
  method VisitK(c: Counters, ns1: array2<int>, ns2: array2<int>, ghost g: IdGroup, ghost t1: Tree, ghost t2: Tree,
                i: nat, j: nat, n: nat) returns (c': Counters)
    requires NodalIs(ns1, g, t1, n) && NodalIs(ns2, g, t2, n) && i < n && j < n
    ensures c'.unResolvedT2 - c'.unResolvedT1 == c.unResolvedT2 - c.unResolvedT1
    ensures c'.unResolvedCommon + c'.resolvedCommon ==
              c.unResolvedCommon + c.resolvedCommon + CountK(g, t1, t2, false, i, j, n)
    ensures c'.sum == c.sum + CountK(g, t1, t2, true, i, j, n)
  {
    c' := c;
    var k := j + 1;
    while k < n
      invariant j + 1 <= k <= n || k == j + 1
      invariant c'.unResolvedT2 - c'.unResolvedT1 == c.unResolvedT2 - c.unResolvedT1
      invariant c'.unResolvedCommon + c'.resolvedCommon ==
                  c.unResolvedCommon + c.resolvedCommon + CountK(g, t1, t2, false, i, j, k)
      invariant c'.sum == c.sum + CountK(g, t1, t2, true, i, j, k)
    {
      c' := Visit(c', ns1, ns2, g, t1, t2, i, j, k, n);
      k := k + 1;
    }
  }

  /** The middle loop: j from i + 1 to n - 1. */
  method VisitJ(c: Counters, ns1: array2<int>, ns2: array2<int>, ghost g: IdGroup, ghost t1: Tree, ghost t2: Tree,
                i: nat, n: nat) returns (c': Counters)
    requires NodalIs(ns1, g, t1, n) && NodalIs(ns2, g, t2, n) && i < n
    ensures c'.unResolvedT2 - c'.unResolvedT1 == c.unResolvedT2 - c.unResolvedT1
    ensures c'.unResolvedCommon + c'.resolvedCommon ==
              c.unResolvedCommon + c.resolvedCommon + CountJ(g, t1, t2, false, i, n, n)
    ensures c'.sum == c.sum + CountJ(g, t1, t2, true, i, n, n)
  {
    c' := c;
    var j := i + 1;
    while j < n
      invariant i + 1 <= j <= n || j == i + 1
      invariant c'.unResolvedT2 - c'.unResolvedT1 == c.unResolvedT2 - c.unResolvedT1
      invariant c'.unResolvedCommon + c'.resolvedCommon ==
                  c.unResolvedCommon + c.resolvedCommon + CountJ(g, t1, t2, false, i, j, n)
      invariant c'.sum == c.sum + CountJ(g, t1, t2, true, i, j, n)
    {
      c' := VisitK(c', ns1, ns2, g, t1, t2, i, j, n);
      j := j + 1;
    }
  }

  /**
   * getDistForArbitrary: the nodal-splitted matrices of both trees over the
   * leaf ids of t1, a loop over every triple of ids, and the number of triples
   * not classified alike.  The unresolved counters of each tree are kept but
   * never read; as written, the one for t2 is advanced on t1's class, so both
   * stay equal.
   */
  method GetDistForArbitrary(t1: Tree, t2: Tree) returns (dist: real)
    requires LcaReady(t1, LeafIdGroup(t1)) && LcaReady(t2, LeafIdGroup(t1))
    ensures dist == (AllTriples(LeafIdGroup(t1), t1, t2, |t1.names|)
                     - AlikeTriples(LeafIdGroup(t1), t1, t2, |t1.names|)) as real
  {
    var id1 := LeafIdGroup(t1);
    var nsMatrix1 := CalcNodalSplittedMatrix(t1, id1);
    var nsMatrix2 := CalcNodalSplittedMatrix(t2, id1);
    var c := Counters(0, 0, 0, 0, 0);
    var leafNum := |t1.names|;
    for i := 0 to leafNum
      invariant NodalIs(nsMatrix1, id1, t1, leafNum) && NodalIs(nsMatrix2, id1, t2, leafNum)
      invariant c.unResolvedT2 == c.unResolvedT1
      invariant c.unResolvedCommon + c.resolvedCommon == CountI(id1, t1, t2, false, i, leafNum)
      invariant c.sum == CountI(id1, t1, t2, true, i, leafNum)
    {
      c := VisitJ(c, nsMatrix1, nsMatrix2, id1, t1, t2, i, leafNum);
    }
    dist := (c.sum - c.unResolvedCommon - c.resolvedCommon) as real;
  }

  /** getDistance is getDistForArbitrary. */
  method GetDistance(t1: Tree, t2: Tree) returns (dist: real)
    requires LcaReady(t1, LeafIdGroup(t1)) && LcaReady(t2, LeafIdGroup(t1))
    ensures dist == (AllTriples(LeafIdGroup(t1), t1, t2, |t1.names|)
                     - AlikeTriples(LeafIdGroup(t1), t1, t2, |t1.names|)) as real
  {
    dist := GetDistForArbitrary(t1, t2);
  }

  // ---------------------------------------------------------------------------
  // What the counts mean

  /** The pairs and the triples out of m things. */
  function Pairs(m: nat): nat
  {
    if m == 0 then 0 else Pairs(m - 1) + (m - 1)
  }

  function TriplesOf(m: nat): nat
  {
    if m == 0 then 0 else TriplesOf(m - 1) + Pairs(m - 1)
  }

  lemma {:induction false} PairsClosed(m: nat)
    ensures 2 * Pairs(m) == m * (m - 1)
  {
    if m > 0 {
      PairsClosed(m - 1);
      assert (m - 1) * (m - 2) + 2 * (m - 1) == m * (m - 1);
    }
  }

  lemma {:induction false} TriplesClosed(m: nat)
    ensures 6 * TriplesOf(m) == m * (m - 1) * (m - 2)
  {
    if m > 0 {
      TriplesClosed(m - 1);
      PairsClosed(m - 1);
      TriplesStep(m);
    }
  }

  /** The triples out of m: those out of m - 1, and those that take the m-th thing with a pair of the others. */
  lemma TriplesStep(m: int)
    ensures (m - 1) * (m - 2) * (m - 3) + 3 * ((m - 1) * (m - 2)) == m * (m - 1) * (m - 2)
  {
    var p := (m - 1) * (m - 2);
    calc {
      (m - 1) * (m - 2) * (m - 3) + 3 * ((m - 1) * (m - 2));
      p * (m - 3) + 3 * p;
      p * m;
      m * (m - 1) * (m - 2);
    }
  }

  lemma {:induction false} CountKAll(g: IdGroup, t1: Tree, t2: Tree, i: int, j: int, k: int)
    requires Shaped(t1) && Shaped(t2)
    ensures CountK(g, t1, t2, true, i, j, k) == if k <= j + 1 then 0 else k - j - 1
    decreases k - j
  {
    if k > j + 1 {
      CountKAll(g, t1, t2, i, j, k - 1);
    }
  }

  lemma {:induction false} CountJAll(g: IdGroup, t1: Tree, t2: Tree, i: int, j: int, n: int)
    requires Shaped(t1) && Shaped(t2) && i + 1 <= j <= n
    ensures CountJ(g, t1, t2, true, i, j, n) == Pairs(n - 1 - i) - Pairs(n - j)
    decreases j - i
  {
    if j > i + 1 {
      CountJAll(g, t1, t2, i, j - 1, n);
      CountKAll(g, t1, t2, i, j - 1, n);
    }
  }

  lemma {:induction false} CountIAll(g: IdGroup, t1: Tree, t2: Tree, i: nat, n: nat)
    requires Shaped(t1) && Shaped(t2) && i <= n
    ensures CountI(g, t1, t2, true, i, n) == TriplesOf(n) - TriplesOf(n - i)
  {
    if i > 0 {
      CountIAll(g, t1, t2, i - 1, n);
      if i - 1 + 1 <= n {
        CountJAll(g, t1, t2, i - 1, n, n);
      }
    }
  }

  /** The loop visits every triple i < j < k < n once: sum is C(n, 3). */
  lemma AllTriplesCount(g: IdGroup, t1: Tree, t2: Tree, n: nat)
    requires Shaped(t1) && Shaped(t2)
    ensures AllTriples(g, t1, t2, n) == n * (n - 1) * (n - 2) / 6
  {
    CountIAll(g, t1, t2, n, n);
    TriplesClosed(n);
  }

  lemma {:induction false} CountKWithin(g: IdGroup, t1: Tree, t2: Tree, i: int, j: int, k: int)
    requires Shaped(t1) && Shaped(t2)
    ensures CountK(g, t1, t2, false, i, j, k) <= CountK(g, t1, t2, true, i, j, k)
    ensures t1 == t2 ==> CountK(g, t1, t2, false, i, j, k) == CountK(g, t1, t2, true, i, j, k)
    decreases k - j
  {
    if k > j + 1 {
      CountKWithin(g, t1, t2, i, j, k - 1);
    }
  }

  lemma {:induction false} CountJWithin(g: IdGroup, t1: Tree, t2: Tree, i: int, j: int, n: int)
    requires Shaped(t1) && Shaped(t2)
    ensures CountJ(g, t1, t2, false, i, j, n) <= CountJ(g, t1, t2, true, i, j, n)
    ensures t1 == t2 ==> CountJ(g, t1, t2, false, i, j, n) == CountJ(g, t1, t2, true, i, j, n)
    decreases j - i
  {
    if j > i + 1 {
      CountJWithin(g, t1, t2, i, j - 1, n);
      CountKWithin(g, t1, t2, i, j - 1, n);
    }
  }

  lemma {:induction false} CountIWithin(g: IdGroup, t1: Tree, t2: Tree, i: nat, n: int)
    requires Shaped(t1) && Shaped(t2)
    ensures CountI(g, t1, t2, false, i, n) <= CountI(g, t1, t2, true, i, n)
    ensures t1 == t2 ==> CountI(g, t1, t2, false, i, n) == CountI(g, t1, t2, true, i, n)
  {
    if i > 0 {
      CountIWithin(g, t1, t2, i - 1, n);
      CountJWithin(g, t1, t2, i - 1, n, n);
    }
  }

  /** The distance lies between 0 and C(n, 3), and a tree is at distance 0 from itself. */
  lemma DistanceBounds(g: IdGroup, t1: Tree, t2: Tree, n: nat)
    requires Shaped(t1) && Shaped(t2)
    ensures 0 <= AllTriples(g, t1, t2, n) - AlikeTriples(g, t1, t2, n) <= n * (n - 1) * (n - 2) / 6
    ensures t1 == t2 ==> AllTriples(g, t1, t2, n) - AlikeTriples(g, t1, t2, n) == 0
  {
    CountIWithin(g, t1, t2, n, n);
    AllTriplesCount(g, t1, t2, n);
  }
}
