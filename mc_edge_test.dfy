/**
 * MCEdgeTest: for every pair of non-root internal nodes, one from each tree,
 * a test on the clade sizes and depths; the result is the number of pairs that
 * pass it.
 */
module MCEdgeTest {
  import opened PalTree
  import opened TreeCmpUtils

  /** The test for clade sizes c1, c2 and heights h1, h2: c1 <= n-1-h2 and c2 <= n-1-h1. */
  predicate Passes(n: int, c1: int, h1: int, c2: int, h2: int)
  {
    c1 <= n - 1 - h2 && c2 <= n - 1 - h1
  }

  /** The test on internal node i of t1 and internal node j of t2, each height being its depth minus 1. */
  predicate PairPasses(t1: Tree, t2: Tree, i: nat, j: nat)
    requires Shaped(t1) && Shaped(t2) && i < |t1.children| && j < |t2.children|
  {
    Passes(|t1.names|, |Leaves(t1, Int(i))|, Depth(t1, i) - 1, |Leaves(t2, Int(j))|, Depth(t2, j) - 1)
  }

  /** The non-root nodes j' < j of t2 whose pair with i passes the test (keep) or fails it (not keep). */
  function CountRow(t1: Tree, t2: Tree, keep: bool, i: nat, j: nat): nat
    requires Shaped(t1) && Shaped(t2) && i < |t1.children| && j <= |t2.children|
  {
    if j == 0 then 0
    else CountRow(t1, t2, keep, i, j - 1)
         + (if j - 1 != RootIndex(t2) && PairPasses(t1, t2, i, j - 1) == keep then 1 else 0)
  }

  /** The same over the non-root rows i' < i of t1. */
  function CountRows(t1: Tree, t2: Tree, keep: bool, i: nat): nat
    requires Shaped(t1) && Shaped(t2) && i <= |t1.children|
  {
    if i == 0 then 0
    else CountRows(t1, t2, keep, i - 1)
         + (if i - 1 != RootIndex(t1) then CountRow(t1, t2, keep, i - 1, |t2.children|) else 0)
  }

  /** The inner loop over the internal nodes of t2 for internal node i of t1. */
  method RemovedInRow(t1: Tree, t2: Tree, i: nat, c1: int, h1: int) returns (removed: nat)
    requires Shaped(t1) && Shaped(t2) && i < |t1.children|
    requires c1 == |Leaves(t1, Int(i))| && h1 == Depth(t1, i) - 1
    ensures removed == CountRow(t1, t2, false, i, |t2.children|)
  {
    var n := |t1.names|;
    removed := 0;
    for j := 0 to |t2.children|
      invariant removed == CountRow(t1, t2, false, i, j)
    {
      if j == RootIndex(t2) {
        continue;
      }
      var c2 := |Leaves(t2, Int(j))|;
      var depth := GetNodeDepth(t2, j);
      var h2 := depth - 1;
      if !(c1 <= n - 1 - h2 && c2 <= n - 1 - h1) {
        removed := removed + 1;
      }
    }
  }

  /**
   * getDistance: (t1IntNum − 1)(t2IntNum − 1) minus the pairs of non-root
   * internal nodes that fail the test, that is, the number of pairs that pass.
   */
  method GetDistance(t1: Tree, t2: Tree) returns (metric: real)
    requires Shaped(t1) && Shaped(t2)
    ensures metric == CountRows(t1, t2, true, |t1.children|) as real
    ensures metric <= ((|t1.children| - 1) * (|t2.children| - 1)) as real
  {
    var t1IntNum := |t1.children|;
    var t2IntNum := |t2.children|;
    var removedNum := 0;
    for i := 0 to t1IntNum
      invariant removedNum == CountRows(t1, t2, false, i)
    {
      if i == RootIndex(t1) {
        continue;
      }
      var c1 := |Leaves(t1, Int(i))|;
      var depth := GetNodeDepth(t1, i);
      var h1 := depth - 1;
      var r := RemovedInRow(t1, t2, i, c1, h1);
      removedNum := removedNum + r;
    }
    PairsSplit(t1, t2, t1IntNum);
    metric := ((t1IntNum - 1) * (t2IntNum - 1) - removedNum) as real;
  }

  /** Every pair of a row either passes or fails. */
  lemma {:induction false} RowSplit(t1: Tree, t2: Tree, i: nat, j: nat)
    requires Shaped(t1) && Shaped(t2) && i < |t1.children| && j <= |t2.children|
    ensures CountRow(t1, t2, true, i, j) + CountRow(t1, t2, false, i, j) ==
              if j > RootIndex(t2) then j - 1 else j
  {
    if j > 0 {
      RowSplit(t1, t2, i, j - 1);
    }
  }

  /** The pairs that pass and those that fail make up all (I − 1)(J − 1) non-root pairs. */
  lemma {:induction false} PairsSplit(t1: Tree, t2: Tree, i: nat)
    requires Shaped(t1) && Shaped(t2) && i <= |t1.children|
    ensures CountRows(t1, t2, true, i) + CountRows(t1, t2, false, i) ==
              (if i > RootIndex(t1) then i - 1 else i) * (|t2.children| - 1)
  {
    if i > 0 {
      PairsSplit(t1, t2, i - 1);
      if i - 1 != RootIndex(t1) {
        RowSplit(t1, t2, i - 1, |t2.children|);
      }
      var k := if i > RootIndex(t1) then i - 1 else i;
      var k' := if i - 1 > RootIndex(t1) then i - 2 else i - 1;
      assert k * (|t2.children| - 1) ==
             k' * (|t2.children| - 1) + (if i - 1 != RootIndex(t1) then |t2.children| - 1 else 0);
    }
  }
}
