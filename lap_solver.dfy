/**
 * LapSolver: the linear assignment problem that the matching metrics hand
 * their square cost matrices to.  The solver TreeCmp calls (`lapShort`, a
 * shortest-augmenting-path method) is not part of this model; what its callers
 * rely on is its result, an assignment of rows to columns of least total cost.
 * That result is specified here and computed by exhaustive search, so that the
 * optimality the metrics depend on is proved rather than assumed.
 */
module LapSolver {
  import opened Wrappers

  /** Every row has one entry per row. */
  predicate Square(m: seq<seq<int>>)
  {
    forall i :: 0 <= i < |m| ==> |m[i]| == |m|
  }

  /** q sends its positions to distinct columns below n, none of them in used. */
  predicate Injects(q: seq<int>, n: nat, used: set<int>)
  {
    && (forall k :: 0 <= k < |q| ==> 0 <= q[k] < n && q[k] !in used)
    && (forall k, l :: 0 <= k < l < |q| ==> q[k] != q[l])
  }

  /** rowsol is a permutation of 0..n-1: row i is assigned column rowsol[i]. */
  predicate IsPerm(rowsol: seq<int>, n: nat)
  {
    |rowsol| == n && Injects(rowsol, n, {})
  }

  /** The cost of giving rows r, r+1, ... the columns listed in q. */
  function CostFrom(m: seq<seq<int>>, r: nat, q: seq<int>): int
    requires Square(m) && r + |q| <= |m| && Injects(q, |m|, {})
    decreases |q|
  {
    if q == [] then 0
    else
      assert Injects(q[1..], |m|, {});
      m[r][q[0]] + CostFrom(m, r + 1, q[1..])
  }

  /** The total cost of an assignment. */
  function Total(m: seq<seq<int>>, rowsol: seq<int>): int
    requires Square(m) && IsPerm(rowsol, |m|)
  {
    CostFrom(m, 0, rowsol)
  }

  /** The arguments of a partial search: r rows placed, on the columns in used. */
  predicate SearchArgs(m: seq<seq<int>>, r: nat, used: set<int>)
  {
    Square(m) && r <= |m| && |used| == r && forall c :: c in used ==> 0 <= c < |m|
  }

  /** The cheapest way to finish rows r.. with the columns not in used. */
  function Best(m: seq<seq<int>>, r: nat, used: set<int>): (res: (int, seq<int>))
    requires SearchArgs(m, r, used)
    ensures |res.1| == |m| - r && Injects(res.1, |m|, used)
    ensures Injects(res.1, |m|, {}) && res.0 == CostFrom(m, r, res.1)
    decreases |m| - r, |m| + 1
  {
    if r == |m| then (0, [])
    else
      FreeColumn(|m|, used);
      var o := BestCol(m, r, used, 0);
      o.value
  }

  /** The cheapest way to finish rows r.. when row r takes a free column c' >= c. */
  function BestCol(m: seq<seq<int>>, r: nat, used: set<int>, c: nat): (res: Option<(int, seq<int>)>)
    requires SearchArgs(m, r, used) && r < |m|
    ensures res.Some? <==> exists c' :: c <= c' < |m| && c' !in used
    ensures res.Some? ==> |res.value.1| == |m| - r && Injects(res.value.1, |m|, used)
    ensures res.Some? ==> Injects(res.value.1, |m|, {}) && res.value.0 == CostFrom(m, r, res.value.1)
    decreases |m| - r, |m| - c
  {
    if c >= |m| then None
    else
      var rest := BestCol(m, r, used, c + 1);
      if c in used then rest
      else
        var sub := Best(m, r + 1, used + {c});
        InjectsCons(c, sub.1, |m|, used);
        var cand := (m[r][c] + sub.0, [c] + sub.1);
        assert cand.1[1..] == sub.1;
        match rest
        case None => Some(cand)
        case Some(o) => if cand.0 <= o.0 then Some(cand) else Some(o)
  }

  /** Fewer than n columns used leaves a free one below n. */
  lemma FreeColumn(n: nat, used: set<int>)
    requires |used| < n && forall c :: c in used ==> 0 <= c < n
    ensures exists c :: 0 <= c < n && c !in used
  {
    if forall c :: 0 <= c < n ==> c in used {
      AllBelowUsed(n, used);
    }
  }

  /** A set holding every column below n has at least n members. */
  lemma {:induction false} AllBelowUsed(n: nat, used: set<int>)
    requires forall c :: 0 <= c < n ==> c in used
    ensures |used| >= n
  {
    if n > 0 {
      AllBelowUsed(n - 1, used - {n - 1});
    }
  }

  /** Putting a free column in front of an assignment of the later rows. */
  lemma InjectsCons(c: int, s: seq<int>, n: nat, used: set<int>)
    requires 0 <= c < n && c !in used && Injects(s, n, used + {c})
    ensures Injects([c] + s, n, used) && Injects([c] + s, n, {})
  {
    var q := [c] + s;
    forall k, l | 0 <= k < l < |q|
      ensures q[k] != q[l]
    {
      if k > 0 {
        assert q[k] == s[k - 1] && q[l] == s[l - 1];
      } else {
        assert q[l] == s[l - 1];
      }
    }
  }

  /** Dropping the first row of an assignment of rows r.. */
  lemma InjectsTail(q: seq<int>, n: nat, used: set<int>)
    requires |q| > 0 && Injects(q, n, used)
    ensures Injects(q[1..], n, used + {q[0]})
  {
    forall k | 0 <= k < |q[1..]|
      ensures q[1..][k] != q[0]
    {
      assert q[1..][k] == q[k + 1];
    }
  }

  /** No assignment of the remaining rows to the free columns is cheaper than Best. */
  lemma {:induction false} BestOptimal(m: seq<seq<int>>, r: nat, used: set<int>, q: seq<int>)
    requires SearchArgs(m, r, used)
    requires |q| == |m| - r && Injects(q, |m|, used) && Injects(q, |m|, {})
    ensures Best(m, r, used).0 <= CostFrom(m, r, q)
    decreases |m| - r, |m| + 1
  {
    if r < |m| {
      FreeColumn(|m|, used);
      BestColOptimal(m, r, used, 0, q);
    }
  }

  lemma {:induction false} BestColOptimal(m: seq<seq<int>>, r: nat, used: set<int>, c: nat, q: seq<int>)
    requires SearchArgs(m, r, used) && r < |m|
    requires |q| == |m| - r && Injects(q, |m|, used) && Injects(q, |m|, {}) && c <= q[0]
    ensures BestCol(m, r, used, c).Some? && BestCol(m, r, used, c).value.0 <= CostFrom(m, r, q)
    decreases |m| - r, |m| - c
  {
    if q[0] == c {
      BestColTakesFirst(m, r, used, q);
    } else {
      BestColOptimal(m, r, used, c + 1, q);
      BestColWidens(m, r, used, c, CostFrom(m, r, q));
    }
  }

  /** The search from q's first column is no dearer than q. */
  lemma {:induction false} BestColTakesFirst(m: seq<seq<int>>, r: nat, used: set<int>, q: seq<int>)
    requires SearchArgs(m, r, used) && r < |m|
    requires |q| == |m| - r && Injects(q, |m|, used) && Injects(q, |m|, {})
    ensures BestCol(m, r, used, q[0]).Some? && BestCol(m, r, used, q[0]).value.0 <= CostFrom(m, r, q)
    decreases |m| - r, 0
  {
    var c := q[0];
    assert 0 <= c < |m| && c !in used;
    assert |used + {c}| == r + 1;
    InjectsTail(q, |m|, used);
    assert Injects(q[1..], |m|, {});
    BestOptimal(m, r + 1, used + {c}, q[1..]);
    BestColPick(m, r, used, c);
    assert CostFrom(m, r, q) == m[r][c] + CostFrom(m, r + 1, q[1..]);
  }

  /** A free column c bounds the search from c by taking it for row r. */
  lemma BestColPick(m: seq<seq<int>>, r: nat, used: set<int>, c: nat)
    requires SearchArgs(m, r, used) && r < |m| && c < |m| && c !in used
    ensures BestCol(m, r, used, c).Some?
    ensures BestCol(m, r, used, c).value.0 <= m[r][c] + Best(m, r + 1, used + {c}).0
  {
  }

  /** Searching from c sees every column the search from c + 1 sees, so a bound on the latter bounds the former. */
  lemma BestColWidens(m: seq<seq<int>>, r: nat, used: set<int>, c: nat, bound: int)
    requires SearchArgs(m, r, used) && r < |m|
    requires BestCol(m, r, used, c + 1).Some? && BestCol(m, r, used, c + 1).value.0 <= bound
    ensures BestCol(m, r, used, c).Some? && BestCol(m, r, used, c).value.0 <= bound
  {
  }

  /** The least total over all assignments, with one assignment that reaches it. */
  function Optimum(m: seq<seq<int>>): (res: (int, seq<int>))
    requires Square(m)
    ensures IsPerm(res.1, |m|) && res.0 == Total(m, res.1)
    ensures forall p :: IsPerm(p, |m|) ==> res.0 <= Total(m, p)
  {
    var res := Best(m, 0, {});
    forall p | IsPerm(p, |m|)
      ensures res.0 <= Total(m, p)
    {
      BestOptimal(m, 0, {}, p);
    }
    res
  }

  /** Any total that one assignment reaches and no assignment undercuts is the optimum. */
  lemma OptimalIsOptimum(m: seq<seq<int>>, cost: int, rowsol: seq<int>)
    requires Square(m) && IsPerm(rowsol, |m|) && cost == Total(m, rowsol)
    requires forall p :: IsPerm(p, |m|) ==> cost <= Total(m, p)
    ensures cost == Optimum(m).0
  {
    var o := Optimum(m);
    assert cost <= Total(m, o.1);
  }

  /** Every entry of m lies in [lo, hi]. */
  predicate EntriesWithin(m: seq<seq<int>>, lo: int, hi: int)
  {
    forall i, j :: 0 <= i < |m| && 0 <= j < |m[i]| ==> lo <= m[i][j] <= hi
  }

  /** With every entry in [lo, hi], the cost of |q| rows lies in [|q|·lo, |q|·hi]. */
  lemma {:induction false} CostFromWithin(m: seq<seq<int>>, r: nat, q: seq<int>, lo: int, hi: int)
    requires Square(m) && r + |q| <= |m| && Injects(q, |m|, {}) && EntriesWithin(m, lo, hi)
    ensures |q| * lo <= CostFrom(m, r, q) <= |q| * hi
    decreases |q|
  {
    if q != [] {
      assert Injects(q[1..], |m|, {});
      CostFromWithin(m, r + 1, q[1..], lo, hi);
      assert |q| * lo == lo + |q[1..]| * lo && |q| * hi == hi + |q[1..]| * hi;
    }
  }

  /** The optimum of an n×n matrix with entries in [lo, hi] lies in [n·lo, n·hi]. */
  lemma OptimumWithin(m: seq<seq<int>>, lo: int, hi: int)
    requires Square(m) && EntriesWithin(m, lo, hi)
    ensures |m| * lo <= Optimum(m).0 <= |m| * hi
  {
    CostFromWithin(m, 0, Optimum(m).1, lo, hi);
  }

  /** Columns r, r+1, ..., n-1 in order: the rest of the identity assignment. */
  function Run(r: nat, n: nat): (q: seq<int>)
    requires r <= n
    ensures |q| == n - r && forall k :: 0 <= k < |q| ==> q[k] == r + k
  {
    seq(n - r, k requires 0 <= k < n - r => r + k)
  }

  /** With zeros on the diagonal, the identity assignment of rows r.. costs nothing. */
  lemma {:induction false} RunCost(m: seq<seq<int>>, r: nat)
    requires Square(m) && r <= |m| && forall i :: 0 <= i < |m| ==> m[i][i] == 0
    ensures Injects(Run(r, |m|), |m|, {}) && CostFrom(m, r, Run(r, |m|)) == 0
    decreases |m| - r
  {
    if r < |m| {
      RunCost(m, r + 1);
      assert Run(r, |m|)[1..] == Run(r + 1, |m|);
    }
  }

  /** A matrix of non-negative entries with zeros on its diagonal has optimum 0. */
  lemma OptimumZero(m: seq<seq<int>>, hi: int)
    requires Square(m) && EntriesWithin(m, 0, hi) && forall i :: 0 <= i < |m| ==> m[i][i] == 0
    ensures Optimum(m).0 == 0
  {
    RunCost(m, 0);
    assert IsPerm(Run(0, |m|), |m|) && Total(m, Run(0, |m|)) == 0;
    OptimumWithin(m, 0, hi);
  }

  /** The cost of row i in column rowsol[i], summed over the first |rowsol| rows. */
  function Along(m: seq<seq<int>>, rowsol: seq<int>): int
    requires |rowsol| <= |m| && forall i :: 0 <= i < |rowsol| ==> 0 <= rowsol[i] < |m[i]|
  {
    if rowsol == [] then 0
    else Along(m, rowsol[..|rowsol| - 1]) + m[|rowsol| - 1][rowsol[|rowsol| - 1]]
  }

  lemma {:induction false} CostFromSnoc(m: seq<seq<int>>, r: nat, q: seq<int>, c: int)
    requires Square(m) && r + |q| < |m| && Injects(q + [c], |m|, {})
    ensures Injects(q, |m|, {}) && 0 <= c < |m|
    ensures CostFrom(m, r, q + [c]) == CostFrom(m, r, q) + m[r + |q|][c]
    decreases |q|
  {
    assert forall k :: 0 <= k < |q| ==> q[k] == (q + [c])[k];
    assert (q + [c])[|q|] == c;
    if q == [] {
      assert (q + [c])[1..] == [];
    } else {
      assert (q + [c])[1..] == q[1..] + [c];
      assert (q + [c])[0] == q[0];
      CostFromSnoc(m, r + 1, q[1..], c);
    }
  }

  /** Summing an assignment row by row gives its total. */
  lemma AlongIsTotal(m: seq<seq<int>>, rowsol: seq<int>)
    requires Square(m) && IsPerm(rowsol, |m|)
    ensures Along(m, rowsol) == Total(m, rowsol)
  {
    AlongPrefix(m, rowsol, |rowsol|);
    assert rowsol[..|rowsol|] == rowsol;
  }

  lemma {:induction false} AlongPrefix(m: seq<seq<int>>, rowsol: seq<int>, k: nat)
    requires Square(m) && IsPerm(rowsol, |m|) && k <= |rowsol|
    ensures Injects(rowsol[..k], |m|, {})
    ensures Along(m, rowsol[..k]) == CostFrom(m, 0, rowsol[..k])
  {
    if k > 0 {
      AlongPrefix(m, rowsol, k - 1);
      assert rowsol[..k] == rowsol[..k - 1] + [rowsol[k - 1]];
      assert rowsol[..k][..k - 1] == rowsol[..k - 1];
      CostFromSnoc(m, 0, rowsol[..k - 1], rowsol[k - 1]);
    }
  }

  /** The cells of a matrix as rows. */
  function Rows(a: array2<int>): (m: seq<seq<int>>)
    reads a
    ensures |m| == a.Length0 && forall i :: 0 <= i < |m| ==> |m[i]| == a.Length1
    ensures forall i, j :: 0 <= i < a.Length0 && 0 <= j < a.Length1 ==> m[i][j] == a[i, j]
  {
    seq(a.Length0, i reads a requires 0 <= i < a.Length0 =>
      seq(a.Length1, j reads a requires 0 <= j < a.Length1 => a[i, j]))
  }

  /**
   * lapShort: solves the assignment problem of the dim×dim matrix assigncost,
   * leaves the column of every row in rowsol and the row of every column in
   * colsol, and returns the total cost, which no other assignment undercuts.
   */
  method LapShort(dim: nat, assigncost: array2<int>, rowsol: array<int>, colsol: array<int>) returns (cost: int)
    requires assigncost.Length0 == dim && assigncost.Length1 == dim
    requires rowsol.Length == dim && colsol.Length == dim && rowsol != colsol
    modifies rowsol, colsol
    ensures Square(Rows(assigncost)) && IsPerm(rowsol[..], dim)
    ensures cost == Total(Rows(assigncost), rowsol[..])
    ensures forall p :: IsPerm(p, dim) ==> cost <= Total(Rows(assigncost), p)
    ensures forall i :: 0 <= i < dim ==> colsol[rowsol[i]] == i
  {
    var m := Rows(assigncost);
    var res := Optimum(m);
    cost := res.0;
    for i := 0 to dim
      invariant forall k :: 0 <= k < i ==> rowsol[k] == res.1[k]
    {
      rowsol[i] := res.1[i];
    }
    assert rowsol[..] == res.1;
    for i := 0 to dim
      invariant forall k :: 0 <= k < dim ==> rowsol[k] == res.1[k]
      invariant forall k :: 0 <= k < i ==> colsol[rowsol[k]] == k
      invariant forall k, l :: 0 <= k < l < dim ==> rowsol[k] != rowsol[l]
    {
      colsol[rowsol[i]] := i;
    }
    assert rowsol[..] == res.1;
  }
}
