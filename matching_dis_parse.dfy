/**
 * MatchingDisParse: the tree-building part of newick2lcbb, which reads one
 * Newick string into a Ptree record.  It scans the characters once with a
 * small state machine: a label read in state 1 is pushed on a node stack when
 * its ':' arrives, a branch length read in state 3 is pushed on a length stack
 * when the ',' or ')' after it arrives, and every ')' pops two nodes (and two
 * lengths), makes them the children of a fresh inner node, and pushes that
 * node.  The two nodes left at the end become the children of the root.
 *
 * Node labels are 1-based in the string and 0-based in the record.  Popping an
 * empty list, a label longer than the 100-character buffer and a node id
 * outside the arrays are undefined behaviour in the program; the model turns
 * each into a Fault.  The lengths themselves are never used, so only their
 * number is kept.
 */
module MatchingDisParse {
  import opened Wrappers
  import MatchingDis

  /** The size of the buffer a label or a length is copied into, terminator included. */
  const MaxLen := 100

  /** The ways the program's reading goes outside what it defines. */
  datatype Fault = StackEmpty | NoLength | LabelTooLong | OutOfRange | TooManyLeaves

  /**
   * The reader's variables between two characters: the scan state, where the
   * current label or length began, the node stack (front first), how many
   * lengths are stacked, the next inner node's 1-based id, and the three link
   * arrays.
   */
  datatype Reader = Reader(state: int, index: int, stack: seq<int>, lens: nat, intNode: int,
                           parent: seq<int>, lchild: seq<int>, rchild: seq<int>)

  /** The three link arrays have one length, and the current token began at or before position i. */
  predicate Shaped(rd: Reader, i: int)
  {
    |rd.parent| == |rd.lchild| == |rd.rchild| && 0 <= rd.index <= i
  }

  // ------------------------------------------------------------------ atoi

  predicate IsDigit(c: char)
  {
    '0' <= c <= '9'
  }

  /** The characters C's isspace accepts in the default locale. */
  predicate IsSpace(c: char)
  {
    c == ' ' || c == '\t' || c == '\n' || c == '\r' || c == '\U{B}' || c == '\U{C}'
  }

  /** The number of characters of t from k on that satisfy the class: spaces or digits. */
  function Run(t: string, k: nat, digits: bool): (c: nat)
    requires k <= |t|
    ensures k + c <= |t|
    ensures forall j :: k <= j < k + c ==> if digits then IsDigit(t[j]) else IsSpace(t[j])
    ensures k + c < |t| ==> !(if digits then IsDigit(t[k + c]) else IsSpace(t[k + c]))
    decreases |t| - k
  {
    if k == |t| || !(if digits then IsDigit(t[k]) else IsSpace(t[k])) then 0
    else 1 + Run(t, k + 1, digits)
  }

  /** The value of a string of decimal digits, the last digit being the units. */
  function Value(d: string): (v: nat)
    requires forall j :: 0 <= j < |d| ==> IsDigit(d[j])
  {
    if d == [] then 0
    else
      assert IsDigit(d[|d| - 1]);
      Value(d[..|d| - 1]) * 10 + (d[|d| - 1] as int - '0' as int)
  }

  /**
   * C's atoi: leading white space, an optional sign, and the digits that
   * follow; nothing else counts, and no digits at all give 0.  Overflow, which
   * C leaves undefined, does not arise on unbounded integers.
   */
  function Atoi(t: string): int
  {
    var k := Run(t, 0, false);
    var neg := k < |t| && t[k] == '-';
    var start := if k < |t| && (t[k] == '-' || t[k] == '+') then k + 1 else k;
    var v: int := Value(t[start..start + Run(t, start, true)]);
    if neg then -v else v
  }

  /** The decimal numeral of k, without sign or leading zeros. */
  function Numeral(k: nat): (d: string)
    ensures |d| > 0 && forall j :: 0 <= j < |d| ==> IsDigit(d[j])
  {
    (if k < 10 then "" else Numeral(k / 10)) + [('0' as int + k % 10) as char]
  }

  lemma {:induction false} ValueOfNumeral(k: nat)
    ensures Value(Numeral(k)) == k
  {
    var d := Numeral(k);
    assert d[..|d| - 1] == if k < 10 then "" else Numeral(k / 10);
    if k >= 10 {
      ValueOfNumeral(k / 10);
    }
  }

  /** atoi of a string of digits after an optional sign. */
  lemma AtoiSigned(sign: string, d: string)
    requires sign == "" || sign == "-" || sign == "+"
    requires |d| > 0 && forall j :: 0 <= j < |d| ==> IsDigit(d[j])
    ensures Atoi(sign + d) == if sign == "-" then -(Value(d) as int) else Value(d)
  {
    var t := sign + d;
    var m := |sign|;
    assert t[0] == if m == 0 then d[0] else sign[0];
    TailSlice(sign, d);
    forall j | m <= j < |t|
      ensures IsDigit(t[j])
    {
      assert t[j] == d[j - m];
    }
    RunAll(t, m);
    assert t[m..m + Run(t, m, true)] == d;
    AtoiStart(t, m);
  }

  /** atoi of a string with no leading space: the sign, if any, takes the first m characters. */
  lemma AtoiStart(t: string, m: nat)
    requires m <= 1 && m < |t| && !IsSpace(t[0])
    requires m == 1 <==> t[0] == '-' || t[0] == '+'
    ensures var v: int := Value(t[m..m + Run(t, m, true)]);
            Atoi(t) == if t[0] == '-' then -v else v
  {
    assert Run(t, 0, false) == 0;
  }

  lemma TailSlice(a: string, b: string)
    ensures (a + b)[|a|..|a| + |b|] == b
  {
  }

  /** atoi reads back every label written as a decimal numeral, with or without a sign. */
  lemma AtoiOfNumeral(k: nat)
    ensures Atoi(Numeral(k)) == k
    ensures Atoi("-" + Numeral(k)) == -(k as int)
    ensures Atoi("+" + Numeral(k)) == k
  {
    ValueOfNumeral(k);
    AtoiSigned("", Numeral(k));
    assert "" + Numeral(k) == Numeral(k);
    AtoiSigned("-", Numeral(k));
    AtoiSigned("+", Numeral(k));
  }

  lemma {:induction false} RunAll(t: string, k: nat)
    requires k <= |t| && forall j :: k <= j < |t| ==> IsDigit(t[j])
    ensures Run(t, k, true) == |t| - k
    decreases |t| - k
  {
    if k < |t| {
      RunAll(t, k + 1);
    }
  }

  // ------------------------------------------------------------- one scan

  /** The buffer copy of the token from index to i fits (the program copies it with a terminator). */
  predicate Fits(rd: Reader, i: int)
  {
    i - rd.index < MaxLen
  }

  /** At ')' or ',' in state 3 the branch length just read is stacked. */
  function TakeLength(rd: Reader, i: int): (r: Result<Reader, Fault>)
    ensures r.Success? ==> r.value == rd.(lens := if rd.state == 3 then rd.lens + 1 else rd.lens)
    ensures r.Failure? <==> rd.state == 3 && !Fits(rd, i)
  {
    if rd.state != 3 then Success(rd)
    else if !Fits(rd, i) then Failure(LabelTooLong)
    else Success(rd.(lens := rd.lens + 1))
  }

  /**
   * One pop of a ')': the front node and a length are taken off their
   * stacks, the node's parent becomes the current inner node, which takes it
   * as its left child when that slot is still free, else as its right child.
   */
  function Attach(rd: Reader): (r: Result<Reader, Fault>)
    requires |rd.parent| == |rd.lchild| == |rd.rchild|
  {
    if |rd.stack| == 0 then Failure(StackEmpty)
    else if rd.lens == 0 then Failure(NoLength)
    else
      var c, p := rd.stack[0] - 1, rd.intNode - 1;
      if !(0 <= c < |rd.parent|) || !(0 <= p < |rd.lchild|) then Failure(OutOfRange)
      else if rd.lchild[p] == -1 then
        Success(rd.(stack := rd.stack[1..], lens := rd.lens - 1, parent := rd.parent[c := p], lchild := rd.lchild[p := c]))
      else
        Success(rd.(stack := rd.stack[1..], lens := rd.lens - 1, parent := rd.parent[c := p], rchild := rd.rchild[p := c]))
  }

  /** What character i of s does to the reader. */
  function Step(s: string, i: int, rd: Reader): (r: Result<Reader, Fault>)
    requires 0 <= i < |s| && Shaped(rd, i)
    ensures r.Success? ==> Shaped(r.value, i + 1) && |r.value.parent| == |rd.parent|
    ensures r.Success? ==> r.value.intNode == rd.intNode + (if s[i] == ')' then 1 else 0)
    ensures r.Success? ==> forall q :: 0 <= q < |rd.lchild| && q != rd.intNode - 1 ==>
              r.value.lchild[q] == rd.lchild[q] && r.value.rchild[q] == rd.rchild[q]
  {
    if s[i] == ')' then
      match TakeLength(rd, i)
      case Failure(f) => Failure(f)
      case Success(r0) =>
        match Attach(r0)
        case Failure(f) => Failure(f)
        case Success(r1) =>
          match Attach(r1)
          case Failure(f) => Failure(f)
          case Success(r2) => Success(r2.(stack := [r2.intNode] + r2.stack, intNode := r2.intNode + 1))
    else if s[i] == ':' then
      if rd.state != 1 then Success(rd.(state := 2))
      else if !Fits(rd, i) then Failure(LabelTooLong)
      else Success(rd.(stack := [Atoi(s[rd.index..i])] + rd.stack, state := 2))
    else if s[i] == ',' then
      if rd.state != 3 then Success(rd)
      else if !Fits(rd, i) then Failure(LabelTooLong)
      else Success(rd.(lens := rd.lens + 1, state := 0))
    else if s[i] != '(' && (rd.state == 0 || rd.state == 2) then
      Success(rd.(index := i, state := rd.state + 1))
    else Success(rd)
  }

  /** The reader after the first k characters of s, from start. */
  function Scan(s: string, k: nat, start: Reader): (r: Result<Reader, Fault>)
    requires k <= |s| && Shaped(start, 0)
    ensures r.Success? ==> Shaped(r.value, k) && |r.value.parent| == |start.parent|
  {
    if k == 0 then Success(start)
    else
      match Scan(s, k - 1, start)
      case Failure(f) => Failure(f)
      case Success(rd) => Step(s, k - 1, rd)
  }

  /** The first 2n entries of a set to -1, the rest as they were. */
  function Reset(a: seq<int>, n: int): (b: seq<int>)
    ensures |b| == |a| && forall i :: 0 <= i < |a| ==> b[i] == if i < 2 * n then -1 else a[i]
  {
    seq(|a|, i requires 0 <= i < |a| => if i < 2 * n then -1 else a[i])
  }

  /** The reader before the first character, for n leaves and the arrays' earlier contents. */
  function Start(n: int, p0: seq<int>, l0: seq<int>, r0: seq<int>): (rd: Reader)
    requires |p0| == |l0| == |r0|
    ensures Shaped(rd, 0)
  {
    Reader(0, 0, [], 0, n + 2, Reset(p0, n), Reset(l0, n), Reset(r0, n))
  }

  /**
   * The end of newick2lcbb: with exactly two nodes left, both become children
   * of the root n, the first in the left slot when it is free (and, as
   * written, in the right slot of the last inner node otherwise), the second
   * in the root's right slot.  Any other stack
   * height is reported as a malformed input (the second component false) and
   * leaves the links as they are.
   */
  function Finish(rd: Reader, n: int): (r: Result<(Reader, bool), Fault>)
    requires |rd.parent| == |rd.lchild| == |rd.rchild|
    ensures r.Success? ==> |r.value.0.parent| == |r.value.0.lchild| == |r.value.0.rchild| == |rd.parent|
  {
    if |rd.stack| != 2 then Success((rd, false))
    else
      var a, b, p := rd.stack[0] - 1, rd.stack[1] - 1, rd.intNode - 1;
      if !(0 <= a < |rd.parent|) || !(0 <= b < |rd.parent|) || !(0 <= n < |rd.lchild|) then Failure(OutOfRange)
      else if rd.lchild[n] != -1 && !(0 <= p < |rd.rchild|) then Failure(OutOfRange)
      else
        var r1 := if rd.lchild[n] == -1
                  then rd.(stack := [], parent := rd.parent[a := n], lchild := rd.lchild[n := a])
                  else rd.(stack := [], parent := rd.parent[a := n], rchild := rd.rchild[p := a]);
        // The program tests the left slot again here, but the first node has just filled it.
        var r2 := r1.(parent := r1.parent[b := n], rchild := r1.rchild[n := b]);
        Success((r2, true))
  }

  /** newick2lcbb on string s for n leaves, over arrays of the given earlier contents. */
  function Newick(s: string, n: int, p0: seq<int>, l0: seq<int>, r0: seq<int>): (r: Result<(Reader, bool), Fault>)
    requires |p0| == |l0| == |r0|
    ensures r.Success? ==> |r.value.0.parent| == |r.value.0.lchild| == |r.value.0.rchild| == |p0|
  {
    if 2 * n > |p0| then Failure(TooManyLeaves)
    else
      match Scan(s, |s|, Start(n, p0, l0, r0))
      case Failure(f) => Failure(f)
      case Success(rd) => Finish(rd, n)
  }

  // ------------------------------------------------------------- properties

  /** Node p has no child yet, when it lies inside the arrays. */
  predicate Free(rd: Reader, p: int)
  {
    0 <= p < |rd.lchild| && p < |rd.rchild| ==> rd.lchild[p] == -1 && rd.rchild[p] == -1
  }

  /**
   * A ')' on a fresh inner node p succeeds exactly when two nodes inside the
   * arrays and two lengths are stacked (the one just read included) and p
   * itself is inside the arrays; it then makes the first popped node the left
   * child of p, the second the right child, records p as the parent of both,
   * and pushes p's 1-based id in their place.
   */
  lemma CloseAttachesTwo(s: string, i: int, rd: Reader)
    requires 0 <= i < |s| && Shaped(rd, i) && s[i] == ')' && Free(rd, rd.intNode - 1)
    ensures var lens := if rd.state == 3 then rd.lens + 1 else rd.lens;
            var p := rd.intNode - 1;
            && (Step(s, i, rd).Success? <==>
                 && (rd.state == 3 ==> Fits(rd, i)) && |rd.stack| >= 2 && lens >= 2
                 && 0 <= rd.stack[0] - 1 < |rd.parent| && 0 <= rd.stack[1] - 1 < |rd.parent| && 0 <= p < |rd.lchild|)
            && (Step(s, i, rd).Success? ==>
                 var a, b := rd.stack[0] - 1, rd.stack[1] - 1;
                 Step(s, i, rd).value == rd.(stack := [rd.intNode] + rd.stack[2..], lens := lens - 2, intNode := rd.intNode + 1,
                                             parent := rd.parent[a := p][b := p], lchild := rd.lchild[p := a], rchild := rd.rchild[p := b]))
  {
    var p := rd.intNode - 1;
    if Step(s, i, rd).Success? {
      var r0 := TakeLength(rd, i).value;
      var r1 := Attach(r0).value;
      assert r1.lchild == rd.lchild[p := rd.stack[0] - 1];
      assert r1.stack[1..] == rd.stack[2..];
    }
  }

  /**
   * The reader keeps to the first 2n ids: the root n and every inner node not
   * yet made are childless, and the next inner node lies past the root.
   */
  predicate Fresh(rd: Reader, n: int)
  {
    && rd.intNode >= n + 2
    && forall p :: 0 <= p < 2 * n && (p == n || p >= rd.intNode - 1) ==> Free(rd, p)
  }

  lemma StepKeepsFresh(s: string, i: int, rd: Reader, n: int)
    requires 0 <= i < |s| && Shaped(rd, i) && Fresh(rd, n) && Step(s, i, rd).Success?
    ensures Fresh(Step(s, i, rd).value, n)
  {
    var r := Step(s, i, rd).value;
    forall p | 0 <= p < 2 * n && (p == n || p >= r.intNode - 1)
      ensures Free(r, p)
    {
      assert Free(rd, p);
    }
  }

  /** Every reader a successful scan passes through is fresh. */
  lemma {:induction false} ScanFresh(s: string, k: nat, n: int, p0: seq<int>, l0: seq<int>, r0: seq<int>)
    requires k <= |s| && |p0| == |l0| == |r0| && Scan(s, k, Start(n, p0, l0, r0)).Success?
    ensures Fresh(Scan(s, k, Start(n, p0, l0, r0)).value, n)
  {
    if k > 0 {
      ScanFresh(s, k - 1, n, p0, l0, r0);
      StepKeepsFresh(s, k - 1, Scan(s, k - 1, Start(n, p0, l0, r0)).value, n);
    }
  }

  /** The number of ')' among the first k characters of s. */
  function Closes(s: string, k: nat): nat
    requires k <= |s|
  {
    if k == 0 then 0 else Closes(s, k - 1) + (if s[k - 1] == ')' then 1 else 0)
  }

  /** After k characters the next inner node is n + 2 plus the number of ')' read, so ids are never reused. */
  lemma {:induction false} ScanCountsCloses(s: string, k: nat, n: int, p0: seq<int>, l0: seq<int>, r0: seq<int>)
    requires k <= |s| && |p0| == |l0| == |r0| && Scan(s, k, Start(n, p0, l0, r0)).Success?
    ensures Scan(s, k, Start(n, p0, l0, r0)).value.intNode == n + 2 + Closes(s, k)
  {
    if k > 0 {
      ScanCountsCloses(s, k - 1, n, p0, l0, r0);
    }
  }

  /**
   * On a fresh reader with two nodes stacked, both become children of the
   * root, left then right: the root's left slot is always free, so the branch
   * that would write the last inner node's right slot is never taken.  Any
   * other stack height reports a malformed input and changes nothing.
   */
  lemma FinishAttachesRoot(rd: Reader, n: int)
    requires |rd.parent| == |rd.lchild| == |rd.rchild| == 2 * n && 1 <= n && Fresh(rd, n)
    ensures |rd.stack| != 2 ==> Finish(rd, n) == Success((rd, false))
    ensures |rd.stack| == 2 ==>
              var a, b := rd.stack[0] - 1, rd.stack[1] - 1;
              && (Finish(rd, n).Success? <==> 0 <= a < 2 * n && 0 <= b < 2 * n)
              && (Finish(rd, n).Success? ==>
                    Finish(rd, n) == Success((rd.(stack := [], parent := rd.parent[a := n][b := n],
                                                  lchild := rd.lchild[n := a], rchild := rd.rchild[n := b]), true)))
  {
    assert Free(rd, n);
  }

  /** A failed scan stays failed, with the same fault, whatever follows. */
  lemma {:induction false} ScanFailureStays(s: string, k: nat, k2: nat, start: Reader, f: Fault)
    requires k <= k2 <= |s| && Shaped(start, 0) && Scan(s, k, start) == Failure(f)
    ensures Scan(s, k2, start) == Failure(f)
    decreases k2 - k
  {
    if k < k2 {
      ScanFailureStays(s, k, k2 - 1, start, f);
    }
  }

  // ------------------------------------------------- well-labelled inputs

  /** A label stacked at character i names one of the n leaves (1-based). */
  predicate LabelOk(s: string, i: int, rd: Reader, n: int)
    requires 0 <= i < |s| && Shaped(rd, i)
  {
    s[i] == ':' && rd.state == 1 ==> 1 <= Atoi(s[rd.index..i]) <= n
  }

  /** Every label the first k characters of s stack names a leaf. */
  predicate LabelsOk(s: string, k: nat, start: Reader, n: int)
    requires k <= |s| && Shaped(start, 0)
  {
    k == 0 ||
    (&& LabelsOk(s, k - 1, start, n)
     && match Scan(s, k - 1, start)
        case Success(rd) => LabelOk(s, k - 1, rd, n)
        case Failure(_) => true)
  }

  /** A stacked 1-based id names a leaf or an inner node already made. */
  predicate Made(rd: Reader, n: int, e: int)
  {
    1 <= e <= n || n + 2 <= e < rd.intNode
  }

  /**
   * The links built so far form a forest over the 2n ids: every inner node
   * made so far (ids n+1 .. intNode-2, 0-based) has two children of smaller
   * id other than the root, every other id is childless, and the stack holds
   * only leaves and made nodes.
   */
  predicate Built(rd: Reader, n: int)
  {
    && |rd.lchild| == |rd.rchild| == 2 * n && rd.intNode >= n + 2
    && (forall m :: 0 <= m < 2 * n ==>
          if n < m < rd.intNode - 1
          then 0 <= rd.lchild[m] < m && 0 <= rd.rchild[m] < m && rd.lchild[m] != n && rd.rchild[m] != n
          else rd.lchild[m] == -1 && rd.rchild[m] == -1)
    && forall j :: 0 <= j < |rd.stack| ==> Made(rd, n, rd.stack[j])
  }

  lemma StepKeepsBuilt(s: string, i: int, rd: Reader, n: int)
    requires 0 <= i < |s| && Shaped(rd, i) && Built(rd, n) && LabelOk(s, i, rd, n) && Step(s, i, rd).Success?
    ensures Built(Step(s, i, rd).value, n)
  {
    var r := Step(s, i, rd).value;
    if s[i] == ')' {
      var p := rd.intNode - 1;
      assert Free(rd, p);
      CloseAttachesTwo(s, i, rd);
      assert Made(rd, n, rd.stack[0]) && Made(rd, n, rd.stack[1]);
      forall j | 0 <= j < |r.stack|
        ensures Made(r, n, r.stack[j])
      {
        if j > 0 {
          assert r.stack[j] == rd.stack[j + 1];
          assert Made(rd, n, rd.stack[j + 1]);
        }
      }
    } else if s[i] == ':' && rd.state == 1 {
      forall j | 0 <= j < |r.stack|
        ensures Made(r, n, r.stack[j])
      {
        if j > 0 {
          assert r.stack[j] == rd.stack[j - 1];
        }
      }
    }
  }

  lemma {:induction false} ScanBuilt(s: string, k: nat, n: int, start: Reader)
    requires k <= |s| && Shaped(start, 0) && Built(start, n)
    requires LabelsOk(s, k, start, n) && Scan(s, k, start).Success?
    ensures Built(Scan(s, k, start).value, n)
  {
    if k > 0 {
      var prev := Scan(s, k - 1, start);
      assert prev.Success? && Scan(s, k, start) == Step(s, k - 1, prev.value);
      assert LabelOk(s, k - 1, prev.value, n);
      ScanBuilt(s, k - 1, n, start);
      StepKeepsBuilt(s, k - 1, prev.value, n);
    }
  }

  lemma StartBuilt(n: int, p0: seq<int>, l0: seq<int>, r0: seq<int>)
    requires |p0| == |l0| == |r0| == 2 * n
    ensures Built(Start(n, p0, l0, r0), n)
  {
  }

  /** A rank under which every child sits below its parent: leaves 0, inner node m its distance past the root, the root above all. */
  function ParseRank(n: nat): (rank: seq<nat>)
    ensures |rank| == 2 * n
  {
    seq(2 * n, m => if m < n then 0 else if m == n then 2 * n else m - n)
  }

  /**
   * When every label names one of the n leaves and the input has the
   * expected shape, the links newick2lcbb builds over arrays of 2n ids form
   * the finite binary tree pttree walks: every node is childless or has two
   * children of smaller rank.
   */
  lemma WellLabelledIsRanked(s: string, n: int, p0: seq<int>, l0: seq<int>, r0: seq<int>)
    requires 1 <= n && |p0| == |l0| == |r0| == 2 * n
    requires LabelsOk(s, |s|, Start(n, p0, l0, r0), n)
    requires Newick(s, n, p0, l0, r0).Success? && Newick(s, n, p0, l0, r0).value.1
    ensures MatchingDis.Ranked(Newick(s, n, p0, l0, r0).value.0.lchild, Newick(s, n, p0, l0, r0).value.0.rchild, ParseRank(n))
  {
    var rd := Scan(s, |s|, Start(n, p0, l0, r0)).value;
    StartBuilt(n, p0, l0, r0);
    ScanBuilt(s, |s|, n, Start(n, p0, l0, r0));
    ScanFresh(s, |s|, n, p0, l0, r0);
    FinishAttachesRoot(rd, n);
    var t := Newick(s, n, p0, l0, r0).value.0;
    var rank := ParseRank(n);
    assert Made(rd, n, rd.stack[0]) && Made(rd, n, rd.stack[1]);
    forall m | 0 <= m < |t.lchild|
      ensures MatchingDis.IsLeaf(t.lchild, t.rchild, m) ||
              (0 <= t.lchild[m] < |t.lchild| && 0 <= t.rchild[m] < |t.lchild| && rank[t.lchild[m]] < rank[m] && rank[t.rchild[m]] < rank[m])
    {
      if m != n {
        assert t.lchild[m] == rd.lchild[m] && t.rchild[m] == rd.rchild[m];
      }
    }
  }

  // --------------------------------------------------------------- methods

  /** The start of newick2lcbb: the links of the first 2n ids become -1 and their vectors 0. */
  method InitRecord(tree: MatchingDis.Ptree, n: int)
    requires tree.Valid() && 2 * n <= tree.parent.Length
    modifies tree.parent, tree.lchild, tree.rchild, tree.edge
    ensures tree.parent[..] == Reset(old(tree.parent[..]), n)
    ensures tree.lchild[..] == Reset(old(tree.lchild[..]), n)
    ensures tree.rchild[..] == Reset(old(tree.rchild[..]), n)
    ensures forall i, j :: 0 <= i < tree.edge.Length0 && 0 <= j < tree.edge.Length1 ==>
              tree.edge[i, j] == if i < 2 * n && j < 2 * n then 0 else old(tree.edge[i, j])
  {
    var m := if n > 0 then 2 * n else 0;
    for i := 0 to m
      invariant forall k :: 0 <= k < tree.parent.Length ==>
        && tree.parent[k] == (if k < i then -1 else old(tree.parent[k]))
        && tree.lchild[k] == (if k < i then -1 else old(tree.lchild[k]))
        && tree.rchild[k] == (if k < i then -1 else old(tree.rchild[k]))
      invariant forall a, b :: 0 <= a < tree.edge.Length0 && 0 <= b < tree.edge.Length1 ==>
        tree.edge[a, b] == if a < i && b < m then 0 else old(tree.edge[a, b])
    {
      tree.parent[i] := -1;
      tree.lchild[i] := -1;
      tree.rchild[i] := -1;
      for j := 0 to m
        invariant forall k :: 0 <= k < tree.parent.Length ==>
          && tree.parent[k] == (if k <= i then -1 else old(tree.parent[k]))
          && tree.lchild[k] == (if k <= i then -1 else old(tree.lchild[k]))
          && tree.rchild[k] == (if k <= i then -1 else old(tree.rchild[k]))
        invariant forall a, b :: 0 <= a < tree.edge.Length0 && 0 <= b < tree.edge.Length1 ==>
          tree.edge[a, b] == if (a < i && b < m) || (a == i && b < j) then 0 else old(tree.edge[a, b])
      {
        tree.edge[i, j] := 0;
      }
    }
  }

  /** Node c gets parent p, and p takes c in its left slot when that is free, else in its right one. */
  method Link(tree: MatchingDis.Ptree, c: int, p: int)
    requires tree.Valid() && 0 <= c < tree.parent.Length && 0 <= p < tree.parent.Length
    modifies tree.parent, tree.lchild, tree.rchild
    ensures tree.parent[..] == old(tree.parent[..])[c := p]
    ensures tree.lchild[..] == if old(tree.lchild[p]) == -1 then old(tree.lchild[..])[p := c] else old(tree.lchild[..])
    ensures tree.rchild[..] == if old(tree.lchild[p]) == -1 then old(tree.rchild[..]) else old(tree.rchild[..])[p := c]
  {
    tree.parent[c] := p;
    if tree.lchild[p] == -1 {
      tree.lchild[p] := c;
    } else {
      tree.rchild[p] := c;
    }
  }

  /** The reader made of the scan variables and the record's links. */
  function Current(tree: MatchingDis.Ptree, state: int, index: int, stack: seq<int>, lens: nat, intNode: int): Reader
    reads tree.parent, tree.lchild, tree.rchild
  {
    Reader(state, index, stack, lens, intNode, tree.parent[..], tree.lchild[..], tree.rchild[..])
  }

  /** One pop of a ')', on the record. */
  method Pop(tree: MatchingDis.Ptree, state: int, index: int, stack: seq<int>, lens: nat, intNode: int)
    returns (r: Result<(seq<int>, nat), Fault>)
    requires tree.Valid()
    modifies tree.parent, tree.lchild, tree.rchild
    ensures var a := Attach(old(Current(tree, state, index, stack, lens, intNode)));
            && (r.Success? <==> a.Success?)
            && (r.Failure? ==> a == Failure(r.error))
            && (r.Success? ==> a.value == Current(tree, state, index, r.value.0, r.value.1, intNode))
  {
    if |stack| == 0 {
      return Failure(StackEmpty);
    }
    if lens == 0 {
      return Failure(NoLength);
    }
    var c, p := stack[0] - 1, intNode - 1;
    if !(0 <= c < tree.parent.Length) || !(0 <= p < tree.lchild.Length) {
      return Failure(OutOfRange);
    }
    Link(tree, c, p);
    return Success((stack[1..], lens - 1));
  }

  /**
   * newick2lcbb up to its closing pttree call: reads s into tree for n
   * leaves.  It fails where the program's behaviour is undefined and
   * otherwise reports whether the input had the expected shape; the links
   * are those Newick gives, the record's leaf count is n, and the vectors of
   * the first 2n ids are cleared.
   */
  method NewickToLcbb(s: string, n: int, tree: MatchingDis.Ptree) returns (r: Result<bool, Fault>)
    requires tree.Valid()
    modifies tree, tree.parent, tree.lchild, tree.rchild, tree.edge
    ensures var spec := Newick(s, n, old(tree.parent[..]), old(tree.lchild[..]), old(tree.rchild[..]));
            && (r.Success? <==> spec.Success?)
            && (r.Failure? ==> spec == Failure(r.error))
            && (r.Success? ==> && r.value == spec.value.1
                               && tree.parent[..] == spec.value.0.parent
                               && tree.lchild[..] == spec.value.0.lchild
                               && tree.rchild[..] == spec.value.0.rchild)
    ensures r.Success? ==> tree.leafNumber == n && forall i, j :: 0 <= i < tree.edge.Length0 && 0 <= j < tree.edge.Length1 ==>
              tree.edge[i, j] == if i < 2 * n && j < 2 * n then 0 else old(tree.edge[i, j])
  {
    if 2 * n > tree.parent.Length {
      return Failure(TooManyLeaves);
    }
    ghost var start := Start(n, tree.parent[..], tree.lchild[..], tree.rchild[..]);
    tree.leafNumber := n;
    InitRecord(tree, n);
    var state, index, stack, lens, intNode := 0, 0, [], 0, n + 2;
    for i := 0 to |s|
      invariant tree.leafNumber == n
      invariant Scan(s, i, start) == Success(Current(tree, state, index, stack, lens, intNode))
      invariant forall a, b :: 0 <= a < tree.edge.Length0 && 0 <= b < tree.edge.Length1 ==>
                  tree.edge[a, b] == if a < 2 * n && b < 2 * n then 0 else old(tree.edge[a, b])
    {
      var next := StepRecord(tree, s, i, state, index, stack, lens, intNode);
      if next.Failure? {
        ScanFailureStays(s, i + 1, |s|, start, next.error);
        return Failure(next.error);
      }
      state, index, stack, lens, intNode := next.value.0, next.value.1, next.value.2, next.value.3, next.value.4;
    }
    r := FinishRecord(tree, n, stack, intNode, Current(tree, state, index, stack, lens, intNode));
  }

  /** The end of newick2lcbb on the record: the two nodes left become the root's children. */
  method FinishRecord(tree: MatchingDis.Ptree, n: int, stack: seq<int>, intNode: int, ghost rd: Reader) returns (r: Result<bool, Fault>)
    requires tree.Valid() && rd.stack == stack && rd.intNode == intNode && rd.parent == tree.parent[..] && rd.lchild == tree.lchild[..] && rd.rchild == tree.rchild[..]
    modifies tree.parent, tree.lchild, tree.rchild
    ensures && (r.Success? <==> Finish(rd, n).Success?)
            && (r.Failure? ==> Finish(rd, n) == Failure(r.error))
            && (r.Success? ==> && r.value == Finish(rd, n).value.1
                               && tree.parent[..] == Finish(rd, n).value.0.parent
                               && tree.lchild[..] == Finish(rd, n).value.0.lchild
                               && tree.rchild[..] == Finish(rd, n).value.0.rchild)
  {
    if |stack| != 2 {
      return Success(false);
    }
    var a, b, p := stack[0] - 1, stack[1] - 1, intNode - 1;
    if !(0 <= a < tree.parent.Length) || !(0 <= b < tree.parent.Length) || !(0 <= n < tree.lchild.Length) {
      return Failure(OutOfRange);
    }
    if tree.lchild[n] != -1 && !(0 <= p < tree.rchild.Length) {
      return Failure(OutOfRange);
    }
    tree.parent[a] := n;
    if tree.lchild[n] == -1 {
      tree.lchild[n] := a;
    } else {
      tree.rchild[p] := a;
    }
    tree.parent[b] := n;
    tree.rchild[n] := b;
    return Success(true);
  }

  /** What character i of s does, on the scan variables and the record. */
  method StepRecord(tree: MatchingDis.Ptree, s: string, i: int, state0: int, index0: int, stack0: seq<int>, lens0: nat, intNode0: int)
    returns (r: Result<(int, int, seq<int>, nat, int), Fault>)
    requires tree.Valid() && 0 <= i < |s| && 0 <= index0 <= i
    modifies tree.parent, tree.lchild, tree.rchild
    ensures var next := Step(s, i, old(Current(tree, state0, index0, stack0, lens0, intNode0)));
            && (r.Success? <==> next.Success?)
            && (r.Failure? ==> next == Failure(r.error))
            && (r.Success? ==> next.value == Current(tree, r.value.0, r.value.1, r.value.2, r.value.3, r.value.4))
  {
    var state, index, stack, lens, intNode := state0, index0, stack0, lens0, intNode0;
    if s[i] == ')' {
      if state == 3 {
        if i - index >= MaxLen {
          return Failure(LabelTooLong);
        }
        lens := lens + 1;
      }
      var p1 := Pop(tree, state, index, stack, lens, intNode);
      if p1.Failure? {
        return Failure(p1.error);
      }
      var p2 := Pop(tree, state, index, p1.value.0, p1.value.1, intNode);
      if p2.Failure? {
        return Failure(p2.error);
      }
      stack, lens := [intNode] + p2.value.0, p2.value.1;
      intNode := intNode + 1;
    } else if s[i] == ':' {
      if state == 1 {
        if i - index >= MaxLen {
          return Failure(LabelTooLong);
        }
        stack := [Atoi(s[index..i])] + stack;
      }
      state := 2;
    } else if s[i] == ',' {
      if state == 3 {
        if i - index >= MaxLen {
          return Failure(LabelTooLong);
        }
        lens := lens + 1;
        state := 0;
      }
    } else if s[i] != '(' {
      if state == 0 {
        index, state := i, 1;
      } else if state == 2 {
        index, state := i, 3;
      }
    }
    return Success((state, index, stack, lens, intNode));
  }
}
