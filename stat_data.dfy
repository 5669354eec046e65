/**
 * StatData: the holder of metric distributions keyed by leaf count.  Each
 * distribution knows the number of leaves it was computed for; the holder
 * keeps the last one inserted per leaf count and the smallest and largest
 * leaf counts seen so far, starting from the largest 32-bit integer and -1.
 */
module StatData {
  import opened Wrappers

  /** Java's Integer.MAX_VALUE, the starting lower bound. */
  const IntMax: int := 2147483647

  function Min(a: int, b: int): int { if a < b then a else b }
  function Max(a: int, b: int): int { if a > b then a else b }

  /** D stands for the distribution objects, which are opaque to the holder. */
  class MetircDistrbHolder<D> {
    var distMap: map<int, D>
    var minLeafNum: int
    var maxLeafNum: int

    /** Every stored leaf count lies between the two bounds. */
    ghost predicate Valid()
      reads this
    {
      forall k :: k in distMap ==> minLeafNum <= k <= maxLeafNum
    }

    constructor ()
      ensures Valid() && distMap == map[] && minLeafNum == IntMax && maxLeafNum == -1
    {
      distMap := map[];
      minLeafNum := IntMax;
      maxLeafNum := -1;
    }

    /** getDistribution: the distribution stored under n, or null (None). */
    function GetDistribution(n: int): (r: Option<D>)
      reads this
      ensures r.Some? <==> n in distMap
      ensures r.Some? ==> r.value == distMap[n]
    {
      if n in distMap then Some(distMap[n]) else None
    }

    /** getMaxLeafNum: the upper bound; the argument is not used. */
    function GetMaxLeafNum(n: int): (r: int)
      reads this
      ensures Valid() ==> forall k :: k in distMap ==> k <= r
    {
      maxLeafNum
    }

    /** getMinLeafNum: the lower bound; the argument is not used. */
    function GetMinLeafNum(n: int): (r: int)
      reads this
      ensures Valid() ==> forall k :: k in distMap ==> r <= k
    {
      minLeafNum
    }

    /**
     * insertDistribution, for a distribution whose getLeafNum is leafNum: the
     * entry for leafNum is replaced and the bounds widen to take it in.
     */
    method InsertDistribution(leafNum: int, distrb: D)
      requires Valid()
      modifies this
      ensures Valid()
      ensures distMap == old(distMap)[leafNum := distrb]
      ensures minLeafNum == Min(old(minLeafNum), leafNum) && maxLeafNum == Max(old(maxLeafNum), leafNum)
      ensures minLeafNum <= leafNum <= maxLeafNum
      ensures minLeafNum <= old(minLeafNum) && old(maxLeafNum) <= maxLeafNum
    {
      distMap := distMap[leafNum := distrb];
      if leafNum < minLeafNum {
        minLeafNum := leafNum;
      }
      if leafNum > maxLeafNum {
        maxLeafNum := leafNum;
      }
    }
  }

  /** The getters give the same bound whatever their argument. */
  lemma BoundsIgnoreArgument<D>(h: MetircDistrbHolder<D>, n: int, m: int)
    ensures h.GetMaxLeafNum(n) == h.GetMaxLeafNum(m) && h.GetMinLeafNum(n) == h.GetMinLeafNum(m)
  {
  }

  /** After an insert the new distribution is the one found under its leaf count, and the others are kept. */
  lemma InsertThenGet<D>(before: map<int, D>, leafNum: int, distrb: D, n: int)
    ensures var after := before[leafNum := distrb];
            (n == leafNum ==> after[n] == distrb) && (n != leafNum ==> (n in after <==> n in before))
            && (n != leafNum && n in before ==> after[n] == before[n])
  {
  }
}
