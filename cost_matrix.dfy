/**
 * CostMatrix: the loop shape every matching metric uses to fill its square
 * `short[size][size]` cost matrix.  An outer loop walks candidate rows, an
 * inner loop candidate columns; a candidate may be skipped (`continue`), and
 * two counters (il/jl or ii/jj) number the rows and columns actually written.
 * A candidate is either a tree node or padding, the extra row or column that
 * pairs a node of the larger tree with no node at all.
 */
module CostMatrix {
  import opened Wrappers

  /** Java's Math.max and Math.min. */
  function Max(a: int, b: int): int { if a >= b then a else b }

  function Min(a: int, b: int): int { if a <= b then a else b }

  /** A row or column of a cost matrix: a node of one tree, or padding. */
  datatype Slot<T> = Node(node: T) | Pad

  /** The candidates that produce a row (or column), in loop order; None is a skipped candidate. */
  function Kept<T>(sel: seq<Option<Slot<T>>>): (r: seq<Slot<T>>)
    ensures |r| <= |sel|
  {
    if sel == [] then []
    else Kept(sel[..|sel| - 1]) + (if sel[|sel| - 1].Some? then [sel[|sel| - 1].value] else [])
  }

  lemma KeptSnoc<T>(sel: seq<Option<Slot<T>>>, i: nat)
    requires i < |sel|
    ensures Kept(sel[..i + 1]) == Kept(sel[..i]) + (if sel[i].Some? then [sel[i].value] else [])
  {
    assert sel[..i + 1][..i] == sel[..i];
  }

  /** What the loop over a prefix of the candidates has kept is a prefix of what the whole loop keeps. */
  lemma {:induction false} KeptPrefix<T>(sel: seq<Option<Slot<T>>>, i: nat)
    requires i <= |sel|
    ensures Kept(sel[..i]) <= Kept(sel)
    decreases |sel| - i
  {
    if i == |sel| {
      assert sel[..i] == sel;
    } else {
      KeptSnoc(sel, i);
      KeptPrefix(sel, i + 1);
    }
  }

  /** Every candidate that is not skipped is kept. */
  lemma {:induction false} KeptHas<T>(sel: seq<Option<Slot<T>>>, i: nat)
    requires i < |sel| && sel[i].Some?
    ensures sel[i].value in Kept(sel)
  {
    KeptSnoc(sel, i);
    KeptPrefix(sel, i + 1);
    var k := Kept(sel[..i + 1]);
    assert k[|k| - 1] == sel[i].value;
    assert Kept(sel)[|k| - 1] == sel[i].value;
  }

  /** Everything kept is a candidate that was not skipped. */
  lemma {:induction false} KeptFrom<T>(sel: seq<Option<Slot<T>>>, x: Slot<T>)
    requires x in Kept(sel)
    ensures Some(x) in sel
  {
    var k := |sel| - 1;
    KeptSnoc(sel, k);
    assert sel[..k + 1] == sel;
    if x in Kept(sel[..k]) {
      KeptFrom(sel[..k], x);
      assert Some(x) in sel[..k];
    } else {
      assert sel[k] == Some(x);
    }
  }

  /**
   * Whether the `size`×`size` matrix is too small for the rows and columns the
   * loops produce, so that Java throws ArrayIndexOutOfBoundsException: a row
   * index reaches size while there is a column to write, or a column index
   * reaches size in some row.
   */
  predicate Overflows(rows: nat, cols: nat, size: nat)
  {
    (rows > size && cols > 0) || (cols > size && rows > 0)
  }

  /** The matrix the loops write: cost where a row and a column were produced, Java's 0 elsewhere. */
  function Cell<T>(k1: seq<Slot<T>>, k2: seq<Slot<T>>, cost: (Slot<T>, Slot<T>) --> int, a: nat, b: nat): int
    requires forall x, y :: x in k1 && y in k2 ==> cost.requires(x, y)
  {
    if a < |k1| && b < |k2| then cost(k1[a], k2[b]) else 0
  }

  /**
   * The nested loops of the matching metrics: a fresh size×size matrix of zeros,
   * then cost(row, column) for every pair of candidates that is not skipped,
   * numbered by the two counters.  Failure when the matrix overflows.
   */
  method FillSkipping<T>(size: nat, sel1: seq<Option<Slot<T>>>, sel2: seq<Option<Slot<T>>>,
                         cost: (Slot<T>, Slot<T>) --> int) returns (r: Result<array2<int>, string>)
    requires forall x, y :: x in Kept(sel1) && y in Kept(sel2) ==> cost.requires(x, y)
    ensures r.Success? <==> !Overflows(|Kept(sel1)|, |Kept(sel2)|, size)
    ensures r.Success? ==> fresh(r.value) && r.value.Length0 == size && r.value.Length1 == size
    ensures r.Success? ==> forall a, b :: 0 <= a < size && 0 <= b < size ==>
              r.value[a, b] == Cell(Kept(sel1), Kept(sel2), cost, a, b)
  {
    var assigncost := new int[size, size]((_, _) => 0);
    ghost var k1, k2 := Kept(sel1), Kept(sel2);
    var il := 0;
    for i := 0 to |sel1|
      invariant il == |Kept(sel1[..i])| <= |k1| && Kept(sel1[..i]) == k1[..il]
      invariant il <= size || k2 == []
      invariant il == 0 || |k2| <= size
      invariant forall a, b :: 0 <= a < size && 0 <= b < size ==>
                  assigncost[a, b] == if a < il then Cell(k1, k2, cost, a, b) else 0
    {
      KeptSnoc(sel1, i);
      KeptPrefix(sel1, i + 1);
      if sel1[i].None? {
        continue;
      }
      assert k1[il] == sel1[i].value;
      var ok := FillRow(assigncost, il, sel1[i].value, sel2, cost, k1, k2);
      if !ok {
        return Failure("ArrayIndexOutOfBoundsException");
      }
      il := il + 1;
    }
    assert sel1[..|sel1|] == sel1;
    return Success(assigncost);
  }

  /** The inner loop: row il gets cost(x, column) for each column kept; false when an index overflows. */
  method FillRow<T>(assigncost: array2<int>, il: nat, x: Slot<T>, sel2: seq<Option<Slot<T>>>,
                    cost: (Slot<T>, Slot<T>) --> int, ghost k1: seq<Slot<T>>, ghost k2: seq<Slot<T>>) returns (ok: bool)
    requires k2 == Kept(sel2) && il < |k1| && k1[il] == x
    requires forall x, y :: x in k1 && y in k2 ==> cost.requires(x, y)
    requires forall a, b :: 0 <= a < assigncost.Length0 && 0 <= b < assigncost.Length1 && a >= il ==> assigncost[a, b] == 0
    requires assigncost.Length0 == assigncost.Length1
    modifies assigncost
    ensures ok <==> k2 == [] || (il < assigncost.Length0 && |k2| <= assigncost.Length1)
    ensures ok ==> forall a, b :: 0 <= a < assigncost.Length0 && 0 <= b < assigncost.Length1 ==>
              assigncost[a, b] == if a == il then Cell(k1, k2, cost, a, b) else old(assigncost[a, b])
  {
    var size := assigncost.Length1;
    var jl := 0;
    for j := 0 to |sel2|
      invariant jl == |Kept(sel2[..j])| <= |k2| && Kept(sel2[..j]) == k2[..jl]
      invariant jl == 0 || il < size
      invariant jl <= size
      invariant forall a, b :: 0 <= a < assigncost.Length0 && 0 <= b < size ==>
                  assigncost[a, b] == if a == il && b < jl then Cell(k1, k2, cost, a, b) else old(assigncost[a, b])
    {
      KeptSnoc(sel2, j);
      KeptPrefix(sel2, j + 1);
      if sel2[j].None? {
        continue;
      }
      assert k2[jl] == sel2[j].value;
      if il >= assigncost.Length0 || jl >= size {
        return false;
      }
      assigncost[il, jl] := cost(x, sel2[j].value);
      jl := jl + 1;
    }
    assert sel2[..|sel2|] == sel2;
    return true;
  }
}
