/**
 * QtDistance: the frame every quartet distance shares.  Before the
 * metric-specific calcDistance runs, the two trees are pruned to their common
 * leaves: a two-pointer walk over the two name-sorted leaf arrays lists the
 * positions to delete from each.  When no name repeats within a tree these are
 * the leaves each tree has and the other lacks; a repeated name can be deleted
 * although the other tree has it, as the walk runs.  If either tree
 * would keep three leaves or fewer the pruning gives up, since such trees have
 * no quartets in common.  The distance on different leaf sets then charges
 * every quartet that exists in only one tree.
 *
 * calcDistance is abstract in the program; its results enter the model as
 * parameters.  Deleting the listed leaves is tree surgery on inner nodes,
 * which is not part of this model: a pruned tree is known here only by its
 * leaf count, the original count less the deletions.
 */
module QtDistance {
  import opened QtLeaf

  /** choose4: the number of 4-element subsets of n elements. */
  function Choose4(n: int): int
  {
    (n * (n - 1) * (n - 2) * (n - 3)) / 24
  }

  /** Fewer than four leaves have no quartet. */
  lemma Choose4Small(n: int)
    requires 0 <= n <= 3
    ensures Choose4(n) == 0
  {
    assert n * (n - 1) * (n - 2) * (n - 3) == 0 by {
      assert n == 0 || n - 1 == 0 || n - 2 == 0 || n - 3 == 0;
    }
  }

  lemma MulMonotone(x: int, y: int, u: int, v: int)
    requires 0 <= x <= y && 0 <= u <= v
    ensures 0 <= x * u <= y * v
  {
    assert x * u <= y * u;
    assert y * u <= y * v;
  }

  /** The falling product grows with n once it is positive. */
  lemma ProductMonotone(m: int, n: int)
    requires 3 <= m <= n
    ensures 0 <= m * (m - 1) * (m - 2) * (m - 3) <= n * (n - 1) * (n - 2) * (n - 3)
  {
    MulMonotone(m, n, m - 1, n - 1);
    MulMonotone(m - 2, n - 2, m - 3, n - 3);
    MulMonotone(m * (m - 1), n * (n - 1), (m - 2) * (m - 3), (n - 2) * (n - 3));
    Regroup(m);
    Regroup(n);
  }

  lemma Regroup(n: int)
    ensures n * (n - 1) * (n - 2) * (n - 3) == (n * (n - 1)) * ((n - 2) * (n - 3))
  {
  }

  /** choose4 never decreases on leaf counts, and is never negative. */
  lemma Choose4Monotone(m: nat, n: nat)
    requires m <= n
    ensures 0 <= Choose4(m) <= Choose4(n)
  {
    if m <= 3 {
      Choose4Small(m);
      if n <= 3 {
        Choose4Small(n);
      } else {
        ProductMonotone(3, n);
      }
    } else {
      ProductMonotone(m, n);
    }
  }

  // ------------------------------------------------------------ pruning

  /** The names are in strictly increasing compareTo order, as Tree.init leaves them. */
  predicate StrictlySorted(a: seq<string>)
  {
    forall k, m {:trigger Compare(a[k], a[m])} :: 0 <= k < m < |a| ==> Compare(a[k], a[m]) < 0
  }

  /** The positions below k of a's names that b lacks, in increasing order. */
  function Missing(a: seq<string>, b: seq<string>, k: nat): (d: seq<int>)
    requires k <= |a|
    ensures |d| <= k
  {
    if k == 0 then []
    else
      var d := Missing(a, b, k - 1);
      if a[k - 1] in b then d else d + [k - 1]
  }

  /** Missing lists exactly the positions whose names b lacks, each once and in increasing order. */
  lemma {:induction false} MissingLists(a: seq<string>, b: seq<string>, k: nat)
    requires k <= |a|
    ensures forall p :: 0 <= p < |Missing(a, b, k)| ==> 0 <= Missing(a, b, k)[p] < k
    ensures forall x :: x in Missing(a, b, k) <==> 0 <= x < k && a[x] !in b
    ensures forall p, q :: 0 <= p < q < |Missing(a, b, k)| ==> Missing(a, b, k)[p] < Missing(a, b, k)[q]
  {
    if k > 0 {
      MissingLists(a, b, k - 1);
    }
  }

  /** Pruning gives up when either tree would keep three leaves or fewer. */
  predicate PruneFails(a: seq<string>, b: seq<string>, d1: seq<int>, d2: seq<int>)
  {
    |d1| >= |a| - 3 || |d2| >= |b| - 3
  }

  /** The names at positions below k come before every name from m on. */
  predicate Before(a: seq<string>, k: int, b: seq<string>, m: int)
    requires 0 <= k <= |a| && 0 <= m <= |b|
  {
    forall p, q {:trigger Compare(a[p], b[q])} :: 0 <= p < k && m <= q < |b| ==> Compare(a[p], b[q]) < 0
  }

  /** A name smaller than b[j] is not found from j on in a sorted b. */
  lemma AbsentAfter(x: string, b: seq<string>, j: int)
    requires StrictlySorted(b) && 0 <= j <= |b| && (j < |b| ==> Compare(x, b[j]) < 0)
    ensures forall q :: j <= q < |b| ==> Compare(x, b[q]) < 0
  {
    forall q | j < q < |b|
      ensures Compare(x, b[q]) < 0
    {
      CompareTransitive(x, b[j], b[q]);
    }
  }

  /** Equal names at the two pointers: both are shared, and the walk's order facts move past them. */
  lemma StepEqual(a: seq<string>, b: seq<string>, i: int, j: int)
    requires StrictlySorted(a) && StrictlySorted(b)
    requires 0 <= i < |a| && 0 <= j < |b| && Compare(a[i], b[j]) == 0
    requires Before(a, i, b, j) && Before(b, j, a, i)
    ensures a[i] in b && b[j] in a
    ensures Missing(a, b, i + 1) == Missing(a, b, i) && Missing(b, a, j + 1) == Missing(b, a, j)
    ensures Before(a, i + 1, b, j + 1) && Before(b, j + 1, a, i + 1)
  {
    CompareZero(a[i], b[j]);
    AbsentAfter(a[i], b, j + 1) by { if j + 1 < |b| { assert Compare(b[j], b[j + 1]) < 0; } }
    AbsentAfter(b[j], a, i + 1) by { if i + 1 < |a| { assert Compare(a[i], a[i + 1]) < 0; } }
  }

  /** a's name at its pointer comes before b's (or b is used up): b lacks it. */
  lemma StepLess(a: seq<string>, b: seq<string>, i: int, j: int)
    requires StrictlySorted(a) && StrictlySorted(b)
    requires 0 <= i < |a| && 0 <= j <= |b| && (j < |b| ==> Compare(a[i], b[j]) < 0)
    requires Before(a, i, b, j) && Before(b, j, a, i)
    ensures a[i] !in b
    ensures Missing(a, b, i + 1) == Missing(a, b, i) + [i]
    ensures Before(a, i + 1, b, j) && Before(b, j, a, i + 1)
  {
    AbsentAfter(a[i], b, j);
    forall q | 0 <= q < |b|
      ensures b[q] != a[i]
    {
      CompareZero(b[q], a[i]);
      CompareZero(a[i], b[q]);
      if q < j {
        assert Compare(b[q], a[i]) < 0;
      }
    }
  }

  /** The positions i .. n-1, in order. */
  function Range(i: nat, n: nat): (r: seq<int>)
    requires i <= n
    ensures |r| == n - i && forall k :: 0 <= k < |r| ==> r[k] == i + k
  {
    seq(n - i, k => i + k)
  }

  /** The delete lists pruneTrees fills for t1 and for t2. */
  datatype Deletions = Deletions(d1: seq<int>, d2: seq<int>)

  /**
   * pruneTrees' walk over the two leaf arrays from positions i and j on, for
   * any arrays: on equal names both pointers advance, otherwise the position
   * of the smaller name is deleted, and once one array is used up every
   * position left in the other is deleted.
   */
  function Walk(a: seq<string>, b: seq<string>, i: nat, j: nat): Deletions
    requires i <= |a| && j <= |b|
    decreases |a| - i + |b| - j
  {
    if i < |a| && j < |b| then
      var comp := Compare(a[i], b[j]);
      if comp == 0 then Walk(a, b, i + 1, j + 1)
      else if comp < 0 then var r := Walk(a, b, i + 1, j); Deletions([i] + r.d1, r.d2)
      else var r := Walk(a, b, i, j + 1); Deletions(r.d1, [j] + r.d2)
    else if i < |a| then var r := Walk(a, b, i + 1, j); Deletions([i] + r.d1, r.d2)
    else if j < |b| then var r := Walk(a, b, i, j + 1); Deletions(r.d1, [j] + r.d2)
    else Deletions([], [])
  }

  /** Every step deletes one position or matches one on each side, so both sides keep the same count. */
  lemma {:induction false} WalkKeepsCount(a: seq<string>, b: seq<string>, i: nat, j: nat)
    requires i <= |a| && j <= |b|
    ensures |a| - i - |Walk(a, b, i, j).d1| == |b| - j - |Walk(a, b, i, j).d2|
    decreases |a| - i + |b| - j
  {
    if i < |a| && j < |b| {
      var comp := Compare(a[i], b[j]);
      if comp == 0 {
        WalkKeepsCount(a, b, i + 1, j + 1);
      } else if comp < 0 {
        WalkKeepsCount(a, b, i + 1, j);
      } else {
        WalkKeepsCount(a, b, i, j + 1);
      }
    } else if i < |a| {
      WalkKeepsCount(a, b, i + 1, j);
    } else if j < |b| {
      WalkKeepsCount(a, b, i, j + 1);
    }
  }

  /** Once one array is used up, the rest of the other is deleted. */
  lemma {:induction false} WalkTail(a: seq<string>, b: seq<string>, i: nat, j: nat)
    requires i <= |a| && j <= |b| && (i == |a| || j == |b|)
    ensures Walk(a, b, i, j) == Deletions(Range(i, |a|), Range(j, |b|))
    decreases |a| - i + |b| - j
  {
    if i < |a| {
      WalkTail(a, b, i + 1, j);
      assert [i] + Range(i + 1, |a|) == Range(i, |a|);
    } else if j < |b| {
      WalkTail(a, b, i, j + 1);
      assert [j] + Range(j + 1, |b|) == Range(j, |b|);
    }
  }

  /** On strictly sorted arrays the walk from a consistent point deletes exactly the missing names left. */
  lemma {:induction false} WalkIsMissing(a: seq<string>, b: seq<string>, i: nat, j: nat)
    requires StrictlySorted(a) && StrictlySorted(b)
    requires i <= |a| && j <= |b|
    requires Before(a, i, b, j) && Before(b, j, a, i)
    ensures Missing(a, b, i) + Walk(a, b, i, j).d1 == Missing(a, b, |a|)
    ensures Missing(b, a, j) + Walk(a, b, i, j).d2 == Missing(b, a, |b|)
    decreases |a| - i + |b| - j, 1
  {
    if i < |a| && j < |b| && Compare(a[i], b[j]) == 0 {
      WalkMatchIsMissing(a, b, i, j);
    } else if i < |a| && (j == |b| || Compare(a[i], b[j]) < 0) {
      WalkDropIsMissing(a, b, i, j);
    } else if j < |b| {
      if i < |a| {
        CompareFlips(b[j], a[i]);
      }
      WalkDropOtherIsMissing(a, b, i, j);
    }
  }

  /** The step of WalkIsMissing on equal names. */
  lemma {:induction false} WalkMatchIsMissing(a: seq<string>, b: seq<string>, i: nat, j: nat)
    requires StrictlySorted(a) && StrictlySorted(b)
    requires i < |a| && j < |b| && Compare(a[i], b[j]) == 0
    requires Before(a, i, b, j) && Before(b, j, a, i)
    ensures Missing(a, b, i) + Walk(a, b, i, j).d1 == Missing(a, b, |a|)
    ensures Missing(b, a, j) + Walk(a, b, i, j).d2 == Missing(b, a, |b|)
    decreases |a| - i + |b| - j, 0
  {
    StepEqual(a, b, i, j);
    WalkIsMissing(a, b, i + 1, j + 1);
    assert Walk(a, b, i, j) == Walk(a, b, i + 1, j + 1);
  }

  /** The step of WalkIsMissing that deletes a's name. */
  lemma {:induction false} WalkDropIsMissing(a: seq<string>, b: seq<string>, i: nat, j: nat)
    requires StrictlySorted(a) && StrictlySorted(b)
    requires i < |a| && j <= |b| && (j < |b| ==> Compare(a[i], b[j]) < 0)
    requires Before(a, i, b, j) && Before(b, j, a, i)
    ensures Missing(a, b, i) + Walk(a, b, i, j).d1 == Missing(a, b, |a|)
    ensures Missing(b, a, j) + Walk(a, b, i, j).d2 == Missing(b, a, |b|)
    decreases |a| - i + |b| - j, 0
  {
    StepLess(a, b, i, j);
    WalkIsMissing(a, b, i + 1, j);
    var r := Walk(a, b, i + 1, j);
    WalkDrops(a, b, i, j);
    SnocRegroup(Missing(a, b, i), i, r.d1);
  }

  /** The step of WalkIsMissing that deletes b's name. */
  lemma {:induction false} WalkDropOtherIsMissing(a: seq<string>, b: seq<string>, i: nat, j: nat)
    requires StrictlySorted(a) && StrictlySorted(b)
    requires i <= |a| && j < |b| && (i < |a| ==> Compare(b[j], a[i]) < 0)
    requires Before(a, i, b, j) && Before(b, j, a, i)
    ensures Missing(a, b, i) + Walk(a, b, i, j).d1 == Missing(a, b, |a|)
    ensures Missing(b, a, j) + Walk(a, b, i, j).d2 == Missing(b, a, |b|)
    decreases |a| - i + |b| - j, 0
  {
    StepLess(b, a, j, i);
    WalkIsMissing(a, b, i, j + 1);
    var r := Walk(a, b, i, j + 1);
    if i < |a| {
      CompareFlips(b[j], a[i]);
    }
    WalkDropsOther(a, b, i, j);
    SnocRegroup(Missing(b, a, j), j, r.d2);
  }

  /** When a's name comes first, or b is used up, the walk deletes a's position and goes on. */
  lemma WalkDrops(a: seq<string>, b: seq<string>, i: nat, j: nat)
    requires i < |a| && j <= |b| && (j < |b| ==> Compare(a[i], b[j]) < 0)
    ensures Walk(a, b, i, j) == Deletions([i] + Walk(a, b, i + 1, j).d1, Walk(a, b, i + 1, j).d2)
  {
  }

  lemma SnocRegroup(x: seq<int>, y: int, z: seq<int>)
    ensures x + ([y] + z) == (x + [y]) + z
  {
  }

  /** When b's name comes first, or a is used up, the walk deletes b's position and goes on. */
  lemma WalkDropsOther(a: seq<string>, b: seq<string>, i: nat, j: nat)
    requires i <= |a| && j < |b| && (i < |a| ==> Compare(a[i], b[j]) > 0)
    ensures Walk(a, b, i, j) == Deletions(Walk(a, b, i, j + 1).d1, [j] + Walk(a, b, i, j + 1).d2)
  {
  }

  /** On strictly sorted arrays (no repeated name) the delete lists are exactly the missing positions. */
  lemma WalkFindsMissing(a: seq<string>, b: seq<string>)
    ensures StrictlySorted(a) && StrictlySorted(b) ==>
      Walk(a, b, 0, 0) == Deletions(Missing(a, b, |a|), Missing(b, a, |b|))
  {
    if StrictlySorted(a) && StrictlySorted(b) {
      WalkIsMissing(a, b, 0, 0);
    }
  }

  /**
   * With a repeated name the walk deletes a position whose name the other tree
   * has: for a = [x, x] and b = [x] it matches the first x and deletes
   * position 1, although no name of a is missing from b.
   */
  lemma RepeatedNameDeleted(x: string)
    ensures Walk([x, x], [x], 0, 0) == Deletions([1], [])
    ensures Missing([x, x], [x], 2) == []
  {
    CompareZero(x, x);
    assert Walk([x, x], [x], 1, 1) == Deletions([1], []);
  }

  /**
   * pruneTrees on the two leaf name arrays, in any order and with repeated
   * names allowed: the delete lists are the walk's; both prunings keep the
   * same number of leaves; failed says whether the PruneException is thrown,
   * which is when they keep three leaves or fewer.  When no name repeats, the
   * lists are the positions whose names the other tree lacks (MissingLists:
   * each once, in increasing order).
   */
  method PruneTrees(a: seq<string>, b: seq<string>) returns (d1: seq<int>, d2: seq<int>, failed: bool)
    ensures Deletions(d1, d2) == Walk(a, b, 0, 0)
    ensures |a| - |d1| == |b| - |d2|
    ensures failed <==> PruneFails(a, b, d1, d2)
    ensures failed <==> |a| - |d1| <= 3
    ensures StrictlySorted(a) && StrictlySorted(b) ==> d1 == Missing(a, b, |a|) && d2 == Missing(b, a, |b|)
  {
    var i, j;
    d1, d2, i, j := WalkBoth(a, b);
    WalkTail(a, b, i, j);
    d1 := Drain(|a|, i, d1);
    d2 := Drain(|b|, j, d2);
    failed := |d1| >= |a| - 3 || |d2| >= |b| - 3;
    WalkFindsMissing(a, b);
  }

  /** The first loop of pruneTrees, while both arrays have names left. */
  method WalkBoth(a: seq<string>, b: seq<string>) returns (d1: seq<int>, d2: seq<int>, i: nat, j: nat)
    ensures i <= |a| && j <= |b| && (i == |a| || j == |b|)
    ensures d1 + Walk(a, b, i, j).d1 == Walk(a, b, 0, 0).d1
    ensures d2 + Walk(a, b, i, j).d2 == Walk(a, b, 0, 0).d2
    ensures i - |d1| == j - |d2|
  {
    d1, d2 := [], [];
    i, j := 0, 0;
    while i < |a| && j < |b|
      invariant i <= |a| && j <= |b|
      invariant d1 + Walk(a, b, i, j).d1 == Walk(a, b, 0, 0).d1
      invariant d2 + Walk(a, b, i, j).d2 == Walk(a, b, 0, 0).d2
      invariant i - |d1| == j - |d2|
    {
      var comp := Compare(a[i], b[j]);
      if comp == 0 {
        i, j := i + 1, j + 1;
      } else if comp < 0 {
        var r := Walk(a, b, i + 1, j);
        assert d1 + ([i] + r.d1) == (d1 + [i]) + r.d1;
        d1 := d1 + [i];
        i := i + 1;
      } else {
        var r := Walk(a, b, i, j + 1);
        assert d2 + ([j] + r.d2) == (d2 + [j]) + r.d2;
        d2 := d2 + [j];
        j := j + 1;
      }
    }
  }

  /** One closing loop of pruneTrees: every position from i0 up to the array length n is deleted. */
  method Drain(n: nat, i0: nat, d0: seq<int>) returns (d: seq<int>)
    requires i0 <= n
    ensures d == d0 + Range(i0, n)
  {
    d := d0;
    var i := i0;
    while i < n
      invariant i0 <= i <= n
      invariant d == d0 + Range(i0, i)
    {
      assert Range(i0, i + 1) == Range(i0, i) + [i];
      d := d + [i];
      i := i + 1;
    }
  }

  /** Nothing is missing exactly when every name of a is in b; without repeated names the walk then deletes nothing. */
  lemma NoDeletesIffContained(a: seq<string>, b: seq<string>)
    ensures Missing(a, b, |a|) == [] <==> forall k :: 0 <= k < |a| ==> a[k] in b
    ensures StrictlySorted(a) && StrictlySorted(b) ==>
      (Walk(a, b, 0, 0).d1 == [] <==> forall k :: 0 <= k < |a| ==> a[k] in b)
  {
    var d := Missing(a, b, |a|);
    MissingLists(a, b, |a|);
    if d != [] {
      assert d[0] in d;
    }
    WalkFindsMissing(a, b);
  }

  // ------------------------------------------------------------ the distance

  /** How pruning went: nothing to delete, the pruned trees' common leaf count, or a PruneException. */
  datatype Pruning = NoDeletes | Pruned(common: nat) | Failed

  /** How pruneTrees ends for the two leaf name arrays. */
  function Outcome(a: seq<string>, b: seq<string>): Pruning
  {
    var d := Walk(a, b, 0, 0);
    if PruneFails(a, b, d.d1, d.d2) then Failed
    else if d.d1 == [] && d.d2 == [] then NoDeletes
    else Pruned(|a| - |d.d1|)
  }

  /**
   * getDistance for trees of n1 and n2 leaves.  qdistSame is calcDistance on
   * the trees themselves and qdistPruned on the pruned trees.
   */
  function GetDistance(n1: nat, n2: nat, p: Pruning, qdistSame: int, qdistPruned: int): (r: int)
    ensures p.NoDeletes? ==> r == qdistSame
    ensures p.Failed? ==> r == Choose4(n1) + Choose4(n2)
    ensures p.Pruned? ==>
      r == qdistPruned + (Choose4(n1) - Choose4(p.common)) + (Choose4(n2) - Choose4(p.common))
  {
    match p
    case NoDeletes => qdistSame
    case Failed => Choose4(n1) + Choose4(n2)
    case Pruned(m) =>
      var qsimtop := Choose4(m) - qdistPruned;
      Choose4(n1) + Choose4(n2) - 2 * qsimtop - qdistPruned
  }

  /** getMeasures' four numbers: qdist, qsim and the quartets only in t1 or only in t2. */
  datatype DistResult = DistResult(qdist: int, qsim: int, onlyFirst: int, onlySecond: int)

  /**
   * getMeasures.  On a PruneException the delete lists are already filled but
   * the common count stays 0, so the last two numbers become choose4 of the
   * deletion counts.
   */
  function GetMeasures(a: seq<string>, b: seq<string>, qdistPruned: int): (r: DistResult)
    ensures var d := Walk(a, b, 0, 0);
      !PruneFails(a, b, d.d1, d.d2) ==>
        && r.qdist + r.qsim == Choose4(|a| - |d.d1|)
        && r.onlyFirst == Choose4(|a|) - Choose4(|a| - |d.d1|)
        && r.onlySecond == Choose4(|b|) - Choose4(|b| - |d.d2|)
    ensures var d := Walk(a, b, 0, 0);
      PruneFails(a, b, d.d1, d.d2) ==> r == DistResult(0, 0, Choose4(|d.d1|), Choose4(|d.d2|))
  {
    WalkKeepsCount(a, b, 0, 0);
    Choose4Small(0);
    var d := Walk(a, b, 0, 0);
    var d1, d2 := d.d1, d.d2;
    var n := if PruneFails(a, b, d1, d2) then 0 else |a| - |d1|;
    var qdist := if PruneFails(a, b, d1, d2) then 0 else qdistPruned;
    var qsim := if PruneFails(a, b, d1, d2) then 0 else Choose4(n) - qdistPruned;
    DistResult(qdist, qsim, Choose4(n + |d1|) - Choose4(n), Choose4(n + |d2|) - Choose4(n))
  }

  /** The leaves each tree keeps: pruning's two sides share one count, and without repeated names it is the number of shared names. */
  lemma CommonCount(a: seq<string>, b: seq<string>)
    ensures |a| - |Walk(a, b, 0, 0).d1| == |b| - |Walk(a, b, 0, 0).d2|
    ensures StrictlySorted(a) && StrictlySorted(b) ==>
      |a| - |Missing(a, b, |a|)| == |b| - |Missing(b, a, |b|)|
  {
    WalkKeepsCount(a, b, 0, 0);
    WalkFindsMissing(a, b);
  }

  /**
   * On different leaf sets the distance is the pruned trees' disagreement plus
   * every quartet of t1 and of t2 that uses a deleted leaf, which are the
   * numbers getMeasures reports.
   */
  lemma DistanceChargesUnsharedQuartets(a: seq<string>, b: seq<string>, qdistPruned: int)
    requires Outcome(a, b).Pruned?
    ensures var r := GetMeasures(a, b, qdistPruned);
      GetDistance(|a|, |b|, Outcome(a, b), 0, qdistPruned) == r.qdist + r.onlyFirst + r.onlySecond
  {
    WalkKeepsCount(a, b, 0, 0);
  }

  /** With equal leaf sets the pruned formula gives the plain calcDistance result back. */
  lemma PrunedFormulaAgrees(n: nat, qdist: int)
    ensures GetDistance(n, n, Pruned(n), 0, qdist) == qdist
  {
  }

  /** With a disagreement count between 0 and choose4 of the common leaves the distance is bounded. */
  lemma DistanceBounds(a: seq<string>, b: seq<string>, qdistSame: int, qdistPruned: int)
    requires 0 <= qdistSame <= Choose4(|a|)
    requires Outcome(a, b).Pruned? ==> 0 <= qdistPruned <= Choose4(Outcome(a, b).common)
    ensures 0 <= GetDistance(|a|, |b|, Outcome(a, b), qdistSame, qdistPruned) <= Choose4(|a|) + Choose4(|b|)
  {
    WalkKeepsCount(a, b, 0, 0);
    Choose4Monotone(0, |a|);
    Choose4Monotone(0, |b|);
    if Outcome(a, b).Pruned? {
      var m := |a| - |Walk(a, b, 0, 0).d1|;
      Choose4Monotone(m, |a|);
      Choose4Monotone(m, |b|);
    }
  }

  /** A failed pruning charges every quartet of both trees. */
  lemma FailedPruneChargesAll(a: seq<string>, b: seq<string>, qdistSame: int, qdistPruned: int)
    requires Outcome(a, b) == Failed
    ensures GetDistance(|a|, |b|, Outcome(a, b), qdistSame, qdistPruned) == Choose4(|a|) + Choose4(|b|)
    ensures GetMeasures(a, b, qdistPruned) ==
              DistResult(0, 0, Choose4(|Walk(a, b, 0, 0).d1|), Choose4(|Walk(a, b, 0, 0).d2|))
  {
    Choose4Small(0);
  }
}
