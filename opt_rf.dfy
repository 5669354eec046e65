/**
 * OptRF: the common part of MatchingSplitMetricOptRF and
 * MatchingClusterMetricOptRF.  The shorter of the two element arrays goes
 * into a linked list, the other into a LinkedHashSet; every list element the
 * set still holds is then removed from both, one for one; and what is left
 * becomes a square cost matrix, rows on the longer residual, padding columns
 * after the shorter one.
 *
 * A LinkedHashSet is a sequence without repetitions, in insertion order.
 */
module OptRF {
  import opened CostMatrix
  import opened LapSolver

  /** No element occurs twice. */
  predicate Distinct<T(==)>(s: seq<T>)
  {
    forall i, j :: 0 <= i < j < |s| ==> s[i] != s[j]
  }

  /** The elements of a sequence. */
  function Elems<T>(s: seq<T>): set<T>
  {
    set x | x in s
  }

  /** The LinkedHashSet holding the elements of s: each one once, at its first occurrence. */
  function Dedup<T(==)>(s: seq<T>): (h: seq<T>)
    ensures Distinct(h) && Elems(h) == Elems(s)
  {
    if s == [] then []
    else
      var d := Dedup(s[..|s| - 1]);
      assert s == s[..|s| - 1] + [s[|s| - 1]];
      assert Elems(s) == Elems(s[..|s| - 1]) + {s[|s| - 1]};
      if s[|s| - 1] in d then d
      else
        assert Elems(d + [s[|s| - 1]]) == Elems(d) + {s[|s| - 1]};
        d + [s[|s| - 1]]
  }

  /** LinkedHashSet.remove: h without x. */
  function Remove<T(==)>(h: seq<T>, x: T): (r: seq<T>)
    ensures Distinct(h) ==> Distinct(r) && Elems(r) == Elems(h) - {x}
    ensures x in h ==> |r| == |h| - 1
    ensures x !in h ==> r == h
  {
    if h == [] then []
    else
      assert h == [h[0]] + h[1..];
      assert Elems(h) == {h[0]} + Elems(h[1..]);
      if h[0] == x then
        h[1..]
      else
        var r := [h[0]] + Remove(h[1..], x);
        assert Elems(r) == {h[0]} + Elems(Remove(h[1..], x));
        r
  }

  /**
   * The removal loop: each element of the list l, in order, that the set h
   * still holds is dropped from the list and from the set.  The result is
   * what is left of both.
   */
  function Strip<T(==)>(l: seq<T>, h: seq<T>): (r: (seq<T>, seq<T>))
    decreases |l|
  {
    if l == [] then ([], h)
    else if l[0] in h then Strip(l[1..], Remove(h, l[0]))
    else
      var rest := Strip(l[1..], h);
      ([l[0]] + rest.0, rest.1)
  }

  /**
   * What the removal leaves: the set loses exactly the elements it shares with
   * the list, one list element is dropped per element the set loses, and no
   * list element left over is still in the set.
   */
  lemma {:induction false} StripMeaning<T>(l: seq<T>, h: seq<T>)
    requires Distinct(h)
    ensures var r := Strip(l, h);
            && Distinct(r.1)
            && Elems(r.1) == Elems(h) - Elems(l)
            && |l| - |r.0| == |h| - |r.1|
            && (forall x :: x in r.0 ==> x !in r.1)
            && multiset(r.0) <= multiset(l)
    decreases |l|
  {
    if l != [] {
      var x := l[0];
      assert l == [x] + l[1..];
      assert Elems(l) == {x} + Elems(l[1..]);
      if x in h {
        StripMeaning(l[1..], Remove(h, x));
      } else {
        StripMeaning(l[1..], h);
        var rest := Strip(l[1..], h);
        assert x !in Elems(rest.1);
        forall y | y in [x] + rest.0
          ensures y !in rest.1
        {
          if y != x {
            assert y in rest.0;
          }
        }
        assert multiset(l) == multiset{x} + multiset(l[1..]);
      }
    }
  }

  /** The set loses one element per element it shares with the list. */
  lemma CommonCount<T>(l: seq<T>, h: seq<T>)
    requires Distinct(h)
    ensures |h| - |Strip(l, h).1| == |Elems(l) * Elems(h)|
  {
    var r := Strip(l, h);
    StripMeaning(l, h);
    DistinctCard(h);
    DistinctCard(r.1);
    assert Elems(h) == Elems(r.1) + Elems(l) * Elems(h);
  }

  /** A sequence without repetitions has as many elements as its length. */
  lemma {:induction false} DistinctCard<T>(s: seq<T>)
    requires Distinct(s)
    ensures |Elems(s)| == |s|
  {
    if s != [] {
      var t := s[..|s| - 1];
      assert s == t + [s[|s| - 1]];
      assert Elems(s) == Elems(t) + {s[|s| - 1]};
      DistinctCard(t);
    }
  }

  /** Against a set holding exactly its elements, a list without repetitions leaves nothing on either side. */
  lemma {:induction false} StripSelf<T>(l: seq<T>, h: seq<T>)
    requires Distinct(l) && Distinct(h) && Elems(l) == Elems(h)
    ensures Strip(l, h) == ([], [])
    decreases |l|
  {
    DistinctCard(l);
    DistinctCard(h);
    if l != [] {
      var x := l[0];
      assert x in Elems(h);
      assert l == [x] + l[1..];
      assert Elems(l[1..]) == Elems(l) - {x};
      StripSelf(l[1..], Remove(h, x));
    } else {
      assert h == [];
    }
  }

  /** LinkedHashSet.add for each element of s, starting from the empty set. */
  method ToLinkedHashSet<T(==)>(s: seq<T>) returns (h: seq<T>)
    ensures h == Dedup(s)
  {
    h := [];
    for i := 0 to |s|
      invariant h == Dedup(s[..i])
    {
      assert s[..i + 1][..i] == s[..i];
      if s[i] !in h {
        h := h + [s[i]];
      }
    }
    assert s[..|s|] == s;
  }

  /** The removal loop with the list iterator: kept is the list left over, h the set. */
  method RemoveCommon<T(==)>(l: seq<T>, h0: seq<T>) returns (kept: seq<T>, h: seq<T>)
    ensures (kept, h) == Strip(l, h0)
  {
    kept, h := [], h0;
    assert l[0..] == l;
    assert [] + Strip(l, h0).0 == Strip(l, h0).0;
    for i := 0 to |l|
      invariant kept + Strip(l[i..], h).0 == Strip(l, h0).0 && Strip(l[i..], h).1 == Strip(l, h0).1
    {
      assert l[i..][1..] == l[i + 1..];
      var s := l[i];
      ghost var rest := Strip(l[i + 1..], if s in h then Remove(h, s) else h);
      assert Strip(l[i..], h) == if s in h then rest else ([s] + rest.0, rest.1);
      if s in h {
        h := Remove(h, s);
      } else {
        assert kept + ([s] + rest.0) == (kept + [s]) + rest.0;
        kept := kept + [s];
      }
    }
    assert l[|l|..] == [];
    assert kept + [] == kept;
  }

  /** The list side (the shorter array, the first on a tie), then the set side. */
  function Sides<T>(a: seq<T>, b: seq<T>): (r: (seq<T>, seq<T>))
    ensures |r.0| <= |r.1|
  {
    if |a| <= |b| then (a, b) else (b, a)
  }

  /** The rows and the columns of the residual matrix: the longer residual gives the rows, the list on a tie goes to columns. */
  function Residuals<T(==)>(a: seq<T>, b: seq<T>): (r: (seq<T>, seq<T>))
    ensures |r.1| <= |r.0|
  {
    var sides := Sides(a, b);
    var left := Strip(sides.0, Dedup(sides.1));
    if |left.0| > |left.1| then left else (left.1, left.0)
  }

  /** One cell: the cost of a row against a column, or its padding cost past the columns. */
  function ResidualEntry<T>(rows: seq<T>, cols: seq<T>, dist: (T, T) -> int, pad: T -> int, a: nat, b: nat): int
    requires a < |rows|
  {
    if b < |cols| then dist(rows[a], cols[b]) else pad(rows[a])
  }

  /** The residual matrix, of side |rows|. */
  function ResidualMatrix<T>(rows: seq<T>, cols: seq<T>, dist: (T, T) -> int, pad: T -> int): (o: seq<seq<int>>)
    ensures |o| == |rows| && Square(o)
    ensures forall a, b :: 0 <= a < |o| && 0 <= b < |o| ==> o[a][b] == ResidualEntry(rows, cols, dist, pad, a, b)
  {
    seq(|rows|, a requires 0 <= a < |rows| =>
      seq(|rows|, b requires 0 <= b < |rows| => ResidualEntry(rows, cols, dist, pad, a, b)))
  }

  /** The matrix the OptRF metrics solve, on the element arrays of the two trees. */
  function OptRFMatrix<T(==)>(a: seq<T>, b: seq<T>, dist: (T, T) -> int, pad: T -> int): (o: seq<seq<int>>)
  {
    var r := Residuals(a, b);
    ResidualMatrix(r.0, r.1, dist, pad)
  }

  /** The fill loops: each row against every column, then padding up to the number of rows. */
  method FillResidual<T>(rows: seq<T>, cols: seq<T>, dist: (T, T) -> int, pad: T -> int) returns (cells: array2<int>)
    requires |cols| <= |rows|
    ensures fresh(cells) && cells.Length0 == |rows| && cells.Length1 == |rows|
    ensures Rows(cells) == ResidualMatrix(rows, cols, dist, pad)
  {
    var size := |rows|;
    cells := new int[size, size];
    for i := 0 to size
      invariant forall a, b :: 0 <= a < i && 0 <= b < size ==> cells[a, b] == ResidualEntry(rows, cols, dist, pad, a, b)
    {
      for j := 0 to |cols|
        invariant forall a, b :: 0 <= a < i && 0 <= b < size ==> cells[a, b] == ResidualEntry(rows, cols, dist, pad, a, b)
        invariant forall b :: 0 <= b < j ==> cells[i, b] == dist(rows[i], cols[b])
      {
        cells[i, j] := dist(rows[i], cols[j]);
      }
      for j := |cols| to size
        invariant forall a, b :: 0 <= a < i && 0 <= b < size ==> cells[a, b] == ResidualEntry(rows, cols, dist, pad, a, b)
        invariant forall b :: 0 <= b < |cols| ==> cells[i, b] == dist(rows[i], cols[b])
        invariant forall b :: |cols| <= b < j ==> cells[i, b] == pad(rows[i])
      {
        cells[i, j] := pad(rows[i]);
      }
    }
    assert Rows(cells) == ResidualMatrix(rows, cols, dist, pad) by {
      var o := ResidualMatrix(rows, cols, dist, pad);
      forall a | 0 <= a < size
        ensures Rows(cells)[a] == o[a]
      {
      }
    }
  }

  /**
   * The body of getDistance once the element arrays a and b are known: the
   * shorter array as the list, the other as the set, the common elements
   * removed, then the residual matrix and its least total cost.
   */
  method SolveResidual<T(==)>(a: seq<T>, b: seq<T>, dist: (T, T) -> int, pad: T -> int)
    returns (metric: int)
    ensures metric == Optimum(OptRFMatrix(a, b, dist, pad)).0
  {
    var s1, s2 := a, b;
    if |a| > |b| {
      s1, s2 := b, a;
    }
    var ll1 := s1;
    var lhs2 := ToLinkedHashSet(s2);
    ll1, lhs2 := RemoveCommon(ll1, lhs2);
    var size := Max(|ll1|, |lhs2|);
    if size <= 0 {
      OptimumZero(OptRFMatrix(a, b, dist, pad), 0);
      return 0;
    }
    var cells;
    if |ll1| > |lhs2| {
      cells := FillResidual(ll1, lhs2, dist, pad);
    } else {
      cells := FillResidual(lhs2, ll1, dist, pad);
    }
    var rowsol := new int[size];
    var colsol := new int[size];
    metric := LapShort(size, cells, rowsol, colsol);
    OptimalIsOptimum(Rows(cells), metric, rowsol[..]);
  }

  /** Two trees with the same elements, none repeated, leave an empty residual matrix. */
  lemma OptRFSelf<T>(a: seq<T>, b: seq<T>, dist: (T, T) -> int, pad: T -> int)
    requires Distinct(a) && Distinct(b) && Elems(a) == Elems(b)
    ensures OptRFMatrix(a, b, dist, pad) == []
  {
    var sides := Sides(a, b);
    var h := Dedup(sides.1);
    assert Elems(h) == Elems(sides.1);
    StripSelf(sides.0, h);
  }

  /**
   * The two residuals: the set side keeps what the list side lacks; each side
   * loses one element per element the two arrays share; nothing left in the
   * list is still in the set; and the matrix has the side of the larger.
   */
  lemma ResidualsMeaning<T>(a: seq<T>, b: seq<T>)
    ensures var sides := Sides(a, b);
            var left := Strip(sides.0, Dedup(sides.1));
            && Elems(left.1) == Elems(sides.1) - Elems(sides.0)
            && |sides.0| - |left.0| == |Elems(a) * Elems(b)|
            && |Dedup(sides.1)| - |left.1| == |Elems(a) * Elems(b)|
            && (forall x :: x in left.0 ==> x !in left.1)
            && multiset(left.0) <= multiset(sides.0)
            && |Residuals(a, b).0| == if |left.0| > |left.1| then |left.0| else |left.1|
  {
    var sides := Sides(a, b);
    var h := Dedup(sides.1);
    StripMeaning(sides.0, h);
    CommonCount(sides.0, h);
    assert Elems(sides.0) * Elems(h) == Elems(a) * Elems(b);
  }
}
