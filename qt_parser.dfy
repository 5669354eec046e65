/**
 * QtParser: the quartet code's own Newick reader.  The input is trimmed and
 * given a closing ';' if it lacks one; then a recursive descent reads one
 * parenthesised node.  Inside a node the reader walks the characters: '('
 * opens a child node, a quote opens a quoted label, '[' a comment, ':' a
 * branch length, whitespace and ',' are passed over, ';' must be the last
 * character, ')' ends the node, and anything else starts an unquoted label.
 * After the outermost node only whitespace, branch lengths and the final ';'
 * are looked at.
 *
 * The parser mutates one position field as it goes; the class below does the
 * same, and each of its methods is proved against the function of the same
 * step written on (string, position) pairs.  The nodes it builds, linked to
 * each other in both directions, are here a value tree: a child's place in
 * its parent's children stands for the two links.  Double.parseDouble is the
 * isNumber parameter.  Reading past the end of the character array is Java's
 * ArrayIndexOutOfBoundsException, the IndexOutOfBounds fault.
 */
module QtParser {
  import opened Wrappers
  import QtLeaf

  /** The tree the parser builds. */
  datatype Node = Leaf(name: string) | Inner(children: seq<Node>)

  /** The ParseException messages, and the array index running off the end. */
  datatype Fault = MissingParen | BadLabelChar | BlankInLabel | UnclosedComment
                 | NotANumber | DataAfterEnd | IndexOutOfBounds

  // ------------------------------------------------------------ trimming

  /** Java's String.trim: drop the characters up to ' ' at both ends. */
  function Trim(s: string): (t: string)
    ensures |t| > 0 ==> t[0] > ' ' && t[|t| - 1] > ' '
  {
    var u := TrimStart(s);
    var t := TrimEnd(u);
    assert |t| > 0 ==> t[0] == u[0];
    t
  }

  function TrimStart(s: string): (t: string)
    ensures |t| <= |s| && t == s[|s| - |t|..]
    ensures forall i :: 0 <= i < |s| - |t| ==> s[i] <= ' '
    ensures |t| > 0 ==> t[0] > ' '
  {
    if |s| > 0 && s[0] <= ' ' then TrimStart(s[1..]) else s
  }

  function TrimEnd(s: string): (t: string)
    ensures |t| <= |s| && t == s[..|t|]
    ensures forall i :: |t| <= i < |s| ==> s[i] <= ' '
    ensures |t| > 0 ==> t[|t| - 1] > ' '
  {
    if |s| > 0 && s[|s| - 1] <= ' ' then TrimEnd(s[..|s| - 1]) else s
  }

  /** A string with no blank at either end is its own trim. */
  lemma TrimKeeps(s: string)
    requires |s| > 0 ==> s[0] > ' ' && s[|s| - 1] > ' '
    ensures Trim(s) == s
  {
  }

  /** parse's preparation: trim, and add ';' if the string does not end with one. */
  function Prepare(input: string): (s: string)
    ensures |s| > 0 && s[|s| - 1] == ';'
  {
    var t := Trim(input);
    if |t| > 0 && t[|t| - 1] == ';' then t else t + ";"
  }

  /** Preparing twice changes nothing more. */
  lemma PrepareIdempotent(input: string)
    ensures Prepare(Prepare(input)) == Prepare(input)
  {
    var t := Trim(input);
    var s := Prepare(input);
    assert s[0] > ' ' by {
      if |t| > 0 { assert s[0] == t[0]; }
    }
    TrimKeeps(s);
  }

  // ------------------------------------------------------------ character classes

  /** The first position from k on whose character is one of stops, or |s|. */
  function Stop(s: string, k: nat, stops: CharClass): (t: nat)
    requires k <= |s|
    ensures k <= t <= |s|
    ensures forall i :: k <= i < t ==> !In(s[i], stops)
    ensures t < |s| ==> In(s[t], stops)
    decreases |s| - k
  {
    if k == |s| then |s| else if In(s[k], stops) then k else Stop(s, k + 1, stops)
  }

  /** The character sets the reader stops at. */
  datatype CharClass =
    | LabelEnds   // what ends an unquoted label: , ) : [
    | LabelBans   // what an unquoted label may not contain: ( ] ' ;
    | LengthEnds  // what ends a branch length: , ) [ ;
    | CommentEnd  // what ends a comment: ]

  predicate In(c: char, k: CharClass)
  {
    match k
    case LabelEnds => c == ',' || c == ')' || c == ':' || c == '['
    case LabelBans => c == '(' || c == ']' || c == '\'' || c == ';'
    case LengthEnds => c == ',' || c == ')' || c == '[' || c == ';'
    case CommentEnd => c == ']'
  }

  /** The label holds a space, a tab or a newline. */
  predicate HasBlank(t: string)
  {
    ' ' in t || '\t' in t || '\n' in t
  }

  /** The label an unquoted text gives: trimmed, and with no blank left in it. */
  function LabelOf(text: string, last: int): (r: Result<(string, int), Fault>)
    ensures r.Success? <==> !HasBlank(Trim(text))
    ensures r.Success? ==> r.value == (Trim(text), last)
    ensures r.Failure? ==> r.error == BlankInLabel
  {
    var t := Trim(text);
    if HasBlank(t) then Failure(BlankInLabel) else Success((t, last))
  }

  // ------------------------------------------------------------ one step each

  /**
   * parseQuotedLabel from the opening quote at p, with acc read so far: every
   * character up to the closing quote is kept; after each one, two quotes in a
   * row are kept as they are and passed over.
   */
  function QuotedLabelAt(s: string, p: nat, acc: string): (r: Result<(string, nat), Fault>)
    ensures r.Success? ==> p < r.value.1 < |s| && s[r.value.1] == '\''
                           && r.value.0 == acc + s[p + 1..r.value.1]
    ensures r.Failure? ==> r.error == IndexOutOfBounds
    decreases |s| - p, 1
  {
    var q := p + 1;
    if q >= |s| then Failure(IndexOutOfBounds)
    else if s[q] == '\'' then Success((acc, q))
    else if q + 1 >= |s| then Failure(IndexOutOfBounds)
    else if s[q + 1] == '\'' then
      if q + 2 >= |s| then Failure(IndexOutOfBounds)
      else if s[q + 2] == '\'' then
        var r := QuotedLabelAt(s, q + 2, acc + [s[q]] + "''");
        if r.Success? then
          assert s[q..r.value.1] == [s[q]] + "''" + s[q + 3..r.value.1];
          r
        else r
      else
        QuotedCharAt(s, q, acc)
    else
      QuotedCharAt(s, q, acc)
  }

  /** One ordinary character of a quoted label, at q: kept, and the label goes on from there. */
  function QuotedCharAt(s: string, q: nat, acc: string): (r: Result<(string, nat), Fault>)
    requires 0 < q < |s|
    ensures r.Success? ==> q < r.value.1 < |s| && s[r.value.1] == '\''
                           && r.value.0 == acc + s[q..r.value.1]
    ensures r.Failure? ==> r.error == IndexOutOfBounds
    decreases |s| - q, 2
  {
    var r := QuotedLabelAt(s, q, acc + [s[q]]);
    if r.Success? then
      assert s[q..r.value.1] == [s[q]] + s[q + 1..r.value.1];
      r
    else r
  }

  /**
   * parseUnQuotedLabel from p, with acc read so far: characters up to one of
   * LabelEnds, none of them in LabelBans; the label is the trimmed text and
   * must hold no blank.  The position ends on the last character read.
   */
  function UnquotedLabelAt(s: string, p: nat, acc: string): (r: Result<(string, int), Fault>)
    ensures r.Success? ==> p <= r.value.1 + 1 < |s| && In(s[r.value.1 + 1], LabelEnds)
    ensures r.Failure? ==> r.error in {IndexOutOfBounds, BadLabelChar, BlankInLabel}
    decreases |s| - p
  {
    if p >= |s| then Failure(IndexOutOfBounds)
    else if In(s[p], LabelEnds) then LabelOf(acc, p - 1)
    else if In(s[p], LabelBans) then Failure(BadLabelChar)
    else UnquotedLabelAt(s, p + 1, acc + [s[p]])
  }

  /** parseComment's search from the '[' at p for the closing ']'. */
  function CommentCloseAt(s: string, p: nat): (r: Result<nat, Fault>)
    ensures r.Success? ==> p < r.value < |s| && s[r.value] == ']'
    ensures r.Failure? ==> r.error == IndexOutOfBounds || r.error == UnclosedComment
    decreases |s| - p
  {
    var q := p + 1;
    if q >= |s| then Failure(IndexOutOfBounds)
    else if s[q] == ']' then Success(q)
    else if q == |s| - 1 then Failure(UnclosedComment)
    else CommentCloseAt(s, q)
  }

  /**
   * parseBranchLength from the ':' at p, with acc read so far: the text up to
   * one of LengthEnds must be a number; the position ends on its last character.
   */
  function BranchLengthAt(s: string, p: nat, acc: string, isNumber: string -> bool): (r: Result<nat, Fault>)
    ensures r.Success? ==> p <= r.value < |s| - 1 && In(s[r.value + 1], LengthEnds)
    ensures r.Failure? ==> r.error == IndexOutOfBounds || r.error == NotANumber
    decreases |s| - p
  {
    var q := p + 1;
    if q >= |s| then Failure(IndexOutOfBounds)
    else if In(s[q], LengthEnds) then
      if isNumber(acc) then Success(q - 1) else Failure(NotANumber)
    else BranchLengthAt(s, q, acc + [s[q]], isNumber)
  }

  /**
   * The loop of parseNode from position p with the children read so far.  It
   * ends on the ')' that closes the node, or past the end of the string.
   * With corrected false a comment is left as the program leaves it, one past
   * its ']', so the loop's own step skips the next character; with corrected
   * true it is left on its ']'.
   */
  function Items(s: string, p: nat, kids: seq<Node>, isNumber: string -> bool, corrected: bool): (r: Result<(Node, nat), Fault>)
    ensures r.Success? ==> p <= r.value.1 && r.value.0.Inner?
    decreases |s| - p
  {
    if p >= |s| then Success((Inner(kids), p))
    else if s[p] == ')' then Success((Inner(kids), p))
    else if s[p] == '(' then
      var sub :- Items(s, p + 1, [], isNumber, corrected);
      Items(s, sub.1 + 1, kids + [sub.0], isNumber, corrected)
    else if s[p] == '\'' then
      var lab :- QuotedLabelAt(s, p, "");
      Items(s, lab.1 + 1, kids + [Leaf(lab.0)], isNumber, corrected)
    else if s[p] == '[' then
      var c :- CommentCloseAt(s, p);
      Items(s, (if corrected then c else c + 1) + 1, kids, isNumber, corrected)
    else if s[p] == ':' then
      var q :- BranchLengthAt(s, p, "", isNumber);
      Items(s, q + 1, kids, isNumber, corrected)
    else if QtLeaf.IsWhitespace(s[p]) || s[p] == ',' then
      Items(s, p + 1, kids, isNumber, corrected)
    else if s[p] == ';' then
      if p != |s| - 1 then Failure(DataAfterEnd) else Items(s, p + 1, kids, isNumber, corrected)
    else
      var lab :- UnquotedLabelAt(s, p, "");
      Items(s, lab.1 + 1, kids + [Leaf(lab.0)], isNumber, corrected)
  }

  /** parseNode at p: the character there must be '('. */
  function NodeAt(s: string, p: nat, isNumber: string -> bool, corrected: bool): (r: Result<(Node, nat), Fault>)
    ensures r.Success? ==> p < r.value.1 && r.value.0.Inner?
  {
    if p >= |s| then Failure(IndexOutOfBounds)
    else if s[p] != '(' then Failure(MissingParen)
    else Items(s, p + 1, [], isNumber, corrected)
  }

  /** checkEnd after position p: branch lengths are read, ';' must be last, everything else is passed over. */
  function EndAt(s: string, p: nat, isNumber: string -> bool): (r: Result<(), Fault>)
    ensures r.Failure? ==> r.error in {IndexOutOfBounds, NotANumber, DataAfterEnd}
    decreases |s| - p
  {
    var q := p + 1;
    if q >= |s| then Success(())
    else if QtLeaf.IsWhitespace(s[q]) then EndAt(s, q, isNumber)
    else if s[q] == ':' then
      var e :- BranchLengthAt(s, q, "", isNumber);
      EndAt(s, e, isNumber)
    else if s[q] == ';' && q != |s| - 1 then Failure(DataAfterEnd)
    else EndAt(s, q, isNumber)
  }

  /** parse: prepare the string, read one node from its start, then check what follows. */
  function Newick(input: string, isNumber: string -> bool, corrected: bool): (r: Result<Node, Fault>)
    ensures r.Success? ==> r.value.Inner?
  {
    var s := Prepare(input);
    var top :- NodeAt(s, 0, isNumber, corrected);
    var _ :- EndAt(s, top.1, isNumber);
    Success(top.0)
  }

  // ------------------------------------------------------------ what the steps mean

  /** The unquoted label read from p, written with Stop: the text up to the first of LabelEnds. */
  function UnquotedClosed(s: string, p: nat, acc: string): Result<(string, int), Fault>
    requires p <= |s|
  {
    var t := Stop(s, p, LabelEnds);
    if Stop(s, p, LabelBans) < t then Failure(BadLabelChar)
    else if t == |s| then Failure(IndexOutOfBounds)
    else LabelOf(acc + s[p..t], t - 1)
  }

  /** An unquoted label ends at the first of LabelEnds, fails at an earlier banned character, and is the trimmed text. */
  lemma {:induction false} UnquotedLabelCloses(s: string, p: nat, acc: string)
    requires p <= |s|
    ensures UnquotedLabelAt(s, p, acc) == UnquotedClosed(s, p, acc)
    decreases |s| - p
  {
    if p < |s| {
      var c := s[p];
      if !In(c, LabelEnds) && !In(c, LabelBans) {
        UnquotedClosedStep(s, p, acc);
        UnquotedLabelCloses(s, p + 1, acc + [c]);
      } else if In(c, LabelEnds) {
        assert !In(c, LabelBans);
        assert Stop(s, p, LabelEnds) == p;
        assert acc + s[p..p] == acc;
      }
    }
  }

  /** An ordinary character moves from the text still to read to the text read. */
  lemma UnquotedClosedStep(s: string, p: nat, acc: string)
    requires p < |s| && !In(s[p], LabelEnds) && !In(s[p], LabelBans)
    ensures UnquotedClosed(s, p, acc) == UnquotedClosed(s, p + 1, acc + [s[p]])
  {
    var t := Stop(s, p, LabelEnds);
    assert t == Stop(s, p + 1, LabelEnds);
    assert Stop(s, p, LabelBans) == Stop(s, p + 1, LabelBans);
    assert acc + [s[p]] + s[p + 1..t] == acc + s[p..t] by {
      assert s[p..t] == [s[p]] + s[p + 1..t];
    }
  }

  /** A comment closes at the first ']' after its '['; without one it is unclosed. */
  lemma {:induction false} CommentCloses(s: string, p: nat)
    requires p + 1 < |s|
    ensures var t := Stop(s, p + 1, CommentEnd);
            CommentCloseAt(s, p) == if t < |s| then Success(t) else Failure(UnclosedComment)
    decreases |s| - p
  {
    if s[p + 1] != ']' && p + 2 < |s| {
      CommentCloses(s, p + 1);
    }
  }

  /** A branch length is the text up to the first of LengthEnds, and it must be a number. */
  lemma {:induction false} BranchLengthCloses(s: string, p: nat, acc: string, isNumber: string -> bool)
    requires p < |s|
    ensures var t := Stop(s, p + 1, LengthEnds);
            BranchLengthAt(s, p, acc, isNumber) ==
              if t == |s| then Failure(IndexOutOfBounds)
              else if isNumber(acc + s[p + 1..t]) then Success(t - 1)
              else Failure(NotANumber)
    decreases |s| - p
  {
    if p + 1 < |s| && !In(s[p + 1], LengthEnds) {
      BranchLengthCloses(s, p + 1, acc + [s[p + 1]], isNumber);
      assert acc + [s[p + 1]] + s[p + 2..Stop(s, p + 1, LengthEnds)] == acc + s[p + 1..Stop(s, p + 1, LengthEnds)];
    } else if p + 1 < |s| {
      assert Stop(s, p + 1, LengthEnds) == p + 1;
      assert acc + s[p + 1..p + 1] == acc;
    }
  }

  /** Only the outermost node can miss its '(': the loop never raises that fault. */
  lemma {:induction false} ItemsNeverMissParen(s: string, p: nat, kids: seq<Node>, isNumber: string -> bool, corrected: bool)
    ensures Items(s, p, kids, isNumber, corrected) != Failure(MissingParen)
    decreases |s| - p, 1
  {
    if p < |s| && s[p] != ')' {
      if s[p] == '(' {
        OpenNeverMissParen(s, p, kids, isNumber, corrected);
      } else if s[p] == '[' || s[p] == ':' || QtLeaf.IsWhitespace(s[p]) || s[p] == ',' || s[p] == ';' {
        SkipNeverMissParen(s, p, kids, isNumber, corrected);
      } else {
        LabelNeverMissParen(s, p, kids, isNumber, corrected);
      }
    }
  }

  /** A subtree: its own items, then the items after its ')'. */
  lemma {:induction false} OpenNeverMissParen(s: string, p: nat, kids: seq<Node>, isNumber: string -> bool, corrected: bool)
    requires p < |s| && s[p] == '('
    ensures Items(s, p, kids, isNumber, corrected) != Failure(MissingParen)
    decreases |s| - p, 0
  {
    ItemsNeverMissParen(s, p + 1, [], isNumber, corrected);
    var sub := Items(s, p + 1, [], isNumber, corrected);
    if sub.Success? {
      ItemsNeverMissParen(s, sub.value.1 + 1, kids + [sub.value.0], isNumber, corrected);
    }
  }

  /** A comment, a branch length, a separator or the final ';': passed over. */
  lemma {:induction false} SkipNeverMissParen(s: string, p: nat, kids: seq<Node>, isNumber: string -> bool, corrected: bool)
    requires p < |s| && s[p] != ')' && s[p] != '(' && s[p] != '\''
    requires s[p] == '[' || s[p] == ':' || QtLeaf.IsWhitespace(s[p]) || s[p] == ',' || s[p] == ';'
    ensures Items(s, p, kids, isNumber, corrected) != Failure(MissingParen)
    decreases |s| - p, 0
  {
    if s[p] == '[' {
      var c := CommentCloseAt(s, p);
      if c.Success? {
        var next := if corrected then c.value + 1 else c.value + 2;
        assert Items(s, p, kids, isNumber, corrected) == Items(s, next, kids, isNumber, corrected);
        ItemsNeverMissParen(s, next, kids, isNumber, corrected);
      }
    } else if s[p] == ':' {
      var q := BranchLengthAt(s, p, "", isNumber);
      if q.Success? {
        ItemsNeverMissParen(s, q.value + 1, kids, isNumber, corrected);
      }
    } else if QtLeaf.IsWhitespace(s[p]) || s[p] == ',' || p == |s| - 1 {
      ItemsNeverMissParen(s, p + 1, kids, isNumber, corrected);
    }
  }

  /** A quoted or an unquoted label: a leaf, then the items after it. */
  lemma {:induction false} LabelNeverMissParen(s: string, p: nat, kids: seq<Node>, isNumber: string -> bool, corrected: bool)
    requires p < |s| && s[p] != ')' && s[p] != '(' && s[p] != '[' && s[p] != ':'
    requires !QtLeaf.IsWhitespace(s[p]) && s[p] != ',' && s[p] != ';'
    ensures Items(s, p, kids, isNumber, corrected) != Failure(MissingParen)
    decreases |s| - p, 0
  {
    var lab := if s[p] == '\'' then QuotedLabelAt(s, p, "") else UnquotedLabelAt(s, p, "");
    if lab.Success? {
      ItemsNeverMissParen(s, lab.value.1 + 1, kids + [Leaf(lab.value.0)], isNumber, corrected);
    }
  }

  /** parse raises the missing-'(' exception exactly when the prepared string does not start with '('. */
  lemma NewickNeedsParen(input: string, isNumber: string -> bool, corrected: bool)
    ensures Newick(input, isNumber, corrected) == Failure(MissingParen) <==> Prepare(input)[0] != '('
  {
    var s := Prepare(input);
    if s[0] == '(' {
      ItemsNeverMissParen(s, 1, [], isNumber, corrected);
    }
  }

  /** At the top level, with no ':' left, the input fails exactly when a ';' comes before the last character. */
  lemma {:induction false} EndRejectsEarlySemicolon(s: string, p: nat, isNumber: string -> bool)
    requires p + 1 < |s| && ':' !in s[p + 1..]
    ensures EndAt(s, p, isNumber) == if ';' in s[p + 1..|s| - 1] then Failure(DataAfterEnd) else Success(())
    decreases |s| - p
  {
    if p + 1 < |s| {
      assert s[p + 1] != ':' by { assert s[p + 1] == s[p + 1..][0]; }
      assert s[p + 2..] == s[p + 1..][1..];
      if p + 2 < |s| {
        EndRejectsEarlySemicolon(s, p + 1, isNumber);
        assert s[p + 1..|s| - 1] == [s[p + 1]] + s[p + 2..|s| - 1];
      } else {
        assert s[p + 1..|s| - 1] == [];
      }
    }
  }

  // ------------------------------------------------------------ one turn of the loop

  /** ')' closes the node with the children read so far. */
  lemma ItemsCloses(s: string, p: nat, kids: seq<Node>, isNumber: string -> bool, corrected: bool)
    requires p < |s| && s[p] == ')'
    ensures Items(s, p, kids, isNumber, corrected) == Success((Inner(kids), p))
  {
  }

  /** Whitespace, ',' and a final ';' are passed over. */
  lemma ItemsSkips(s: string, p: nat, kids: seq<Node>, isNumber: string -> bool, corrected: bool)
    requires p < |s| && (QtLeaf.IsWhitespace(s[p]) || s[p] == ',' || (s[p] == ';' && p == |s| - 1))
    ensures Items(s, p, kids, isNumber, corrected) == Items(s, p + 1, kids, isNumber, corrected)
  {
  }

  /** '(' reads a child node and carries on after its ')'. */
  lemma ItemsTakesNode(s: string, p: nat, kids: seq<Node>, isNumber: string -> bool, corrected: bool)
    requires p < |s| && s[p] == '('
    ensures var sub := Items(s, p + 1, [], isNumber, corrected);
            Items(s, p, kids, isNumber, corrected) ==
              if sub.Failure? then Failure(sub.error)
              else Items(s, sub.value.1 + 1, kids + [sub.value.0], isNumber, corrected)
  {
  }

  /** Any other character starts an unquoted label, which becomes a leaf child. */
  lemma ItemsTakesLabel(s: string, p: nat, kids: seq<Node>, isNumber: string -> bool, corrected: bool)
    requires p < |s| && !QtLeaf.IsWhitespace(s[p])
    requires !In(s[p], LabelEnds) && s[p] != '(' && s[p] != '\'' && s[p] != ';'
    ensures var lab := UnquotedLabelAt(s, p, "");
            Items(s, p, kids, isNumber, corrected) ==
              if lab.Failure? then Failure(lab.error)
              else Items(s, lab.value.1 + 1, kids + [Leaf(lab.value.0)], isNumber, corrected)
  {
    var c := s[p];
    assert c != ')' && c != '[' && c != ':' && c != ',';
    var r := Items(s, p, kids, isNumber, corrected);
    assert r == (var lab :- UnquotedLabelAt(s, p, ""); Items(s, lab.1 + 1, kids + [Leaf(lab.0)], isNumber, corrected));
  }

  // ------------------------------------------------------------ the comment finding

  /** As written, the character right after a comment's ']' is never looked at. */
  lemma CommentSkipsNextChar(s: string, p: nat, kids: seq<Node>, isNumber: string -> bool)
    requires p < |s| && s[p] == '[' && CommentCloseAt(s, p).Success?
    ensures Items(s, p, kids, isNumber, false) == Items(s, CommentCloseAt(s, p).value + 2, kids, isNumber, false)
  {
  }

  /** Corrected, the reader resumes right after the comment, as if it were not there. */
  lemma CommentResumesAfterBracket(s: string, p: nat, kids: seq<Node>, isNumber: string -> bool)
    requires p < |s| && s[p] == '[' && CommentCloseAt(s, p).Success?
    ensures Items(s, p, kids, isNumber, true) == Items(s, CommentCloseAt(s, p).value + 1, kids, isNumber, true)
  {
  }

  /** The example input: two trees ((a),b), the first leaf followed by a comment. */
  const Example: string := "((a[x]),b);"

  /** The characters of the example, one by one. */
  predicate ExampleShape(s: string)
  {
    |s| == 11 && s[0] == '(' && s[1] == '(' && s[2] == 'a' && s[3] == '[' && s[4] == 'x' && s[5] == ']'
    && s[6] == ')' && s[7] == ',' && s[8] == 'b' && s[9] == ')' && s[10] == ';'
  }

  lemma ExampleChars(s: string)
    requires s == Example
    ensures ExampleShape(s) && Prepare(s) == s
  {
    TrimKeeps(s);
  }

  /** A one-character label: read, and closed by the character after it. */
  lemma OneCharLabel(s: string, p: nat)
    requires p + 1 < |s| && s[p] > ' ' && !In(s[p], LabelEnds) && !In(s[p], LabelBans) && In(s[p + 1], LabelEnds)
    ensures UnquotedLabelAt(s, p, []) == Success(([s[p]], p))
  {
    assert [] + [s[p]] == [s[p]];
    assert UnquotedLabelAt(s, p, []) == UnquotedLabelAt(s, p + 1, [s[p]]);
    TrimKeeps([s[p]]);
    NoBlankIn(s[p]);
  }

  /** A character above ' ' is no blank. */
  lemma NoBlankIn(c: char)
    requires c > ' '
    ensures !HasBlank([c])
  {
    assert forall x :: x in [c] ==> x == c;
  }

  /** The labels and the comment of the example. */
  lemma ExampleLabelA(s: string)
    requires ExampleShape(s)
    ensures UnquotedLabelAt(s, 2, "") == Success(("a", 2))
  {
    OneCharLabel(s, 2);
    assert [s[2]] == "a";
  }

  lemma ExampleLabelB(s: string)
    requires ExampleShape(s)
    ensures UnquotedLabelAt(s, 8, "") == Success(("b", 8))
  {
    OneCharLabel(s, 8);
    assert [s[8]] == "b";
  }

  lemma ExampleComment(s: string)
    requires ExampleShape(s)
    ensures CommentCloseAt(s, 3) == Success(5)
  {
    assert CommentCloseAt(s, 3) == CommentCloseAt(s, 4);
  }

  /** The labels of the example, read once and named a and b below. */
  predicate ExampleLabels(s: string, a: string, b: string)
  {
    ExampleShape(s) && UnquotedLabelAt(s, 2, "") == Success((a, 2)) && UnquotedLabelAt(s, 8, "") == Success((b, 8))
    && CommentCloseAt(s, 3) == Success(5)
  }

  /** From b on, whatever was read before: b is the last child of the node that ')' closes. */
  lemma ExampleLeafB(s: string, a: string, b: string, kids: seq<Node>, isNumber: string -> bool, corrected: bool)
    requires ExampleLabels(s, a, b)
    ensures Items(s, 8, kids, isNumber, corrected) == Success((Inner(kids + [Leaf(b)]), 9))
  {
    ItemsCloses(s, 9, kids + [Leaf(b)], isNumber, corrected);
    ItemsTakesLabel(s, 8, kids, isNumber, corrected);
  }

  /** As written, reading resumes at the ',' after the inner node's ')', and b joins the inner node. */
  lemma ExampleTailAsWritten(s: string, a: string, b: string, isNumber: string -> bool)
    requires ExampleLabels(s, a, b)
    ensures Items(s, 7, [Leaf(a)], isNumber, false) == Success((Inner([Leaf(a), Leaf(b)]), 9))
  {
    ExampleLeafB(s, a, b, [Leaf(a)], isNumber, false);
    assert [Leaf(a)] + [Leaf(b)] == [Leaf(a), Leaf(b)];
    ItemsSkips(s, 7, [Leaf(a)], isNumber, false);
  }

  /** As written, the inner node runs on past the comment and takes in b. */
  lemma ExampleInnerAsWritten(s: string, a: string, b: string, isNumber: string -> bool)
    requires ExampleLabels(s, a, b)
    ensures Items(s, 2, [], isNumber, false) == Success((Inner([Leaf(a), Leaf(b)]), 9))
  {
    ExampleTailAsWritten(s, a, b, isNumber);
    assert [] + [Leaf(a)] == [Leaf(a)];
    CommentSkipsNextChar(s, 3, [Leaf(a)], isNumber);
    ItemsTakesLabel(s, 2, [], isNumber, false);
  }

  /** The reading of the example as written. */
  lemma ExampleAsWritten(s: string, a: string, b: string, isNumber: string -> bool)
    requires ExampleLabels(s, a, b)
    ensures NodeAt(s, 0, isNumber, false) == Success((Inner([Inner([Leaf(a), Leaf(b)])]), 11))
    ensures EndAt(s, 11, isNumber) == Success(())
  {
    ExampleInnerAsWritten(s, a, b, isNumber);
    var inner := Inner([Leaf(a), Leaf(b)]);
    assert [] + [inner] == [inner];
    ItemsSkips(s, 10, [inner], isNumber, false);
    ItemsTakesNode(s, 1, [], isNumber, false);
  }

  /** Corrected, the inner node closes at its own ')'. */
  lemma ExampleInnerCorrected(s: string, a: string, b: string, isNumber: string -> bool)
    requires ExampleLabels(s, a, b)
    ensures Items(s, 2, [], isNumber, true) == Success((Inner([Leaf(a)]), 6))
  {
    assert [] + [Leaf(a)] == [Leaf(a)];
    ItemsCloses(s, 6, [Leaf(a)], isNumber, true);
    CommentResumesAfterBracket(s, 3, [Leaf(a)], isNumber);
    ItemsTakesLabel(s, 2, [], isNumber, true);
  }

  /** Corrected, b is read into the outer node. */
  lemma ExampleTailCorrected(s: string, a: string, b: string, inner: Node, isNumber: string -> bool)
    requires ExampleLabels(s, a, b)
    ensures Items(s, 7, [inner], isNumber, true) == Success((Inner([inner, Leaf(b)]), 9))
  {
    ExampleLeafB(s, a, b, [inner], isNumber, true);
    assert [inner] + [Leaf(b)] == [inner, Leaf(b)];
    ItemsSkips(s, 7, [inner], isNumber, true);
  }

  /** The corrected reading of the example. */
  lemma ExampleCorrected(s: string, a: string, b: string, isNumber: string -> bool)
    requires ExampleLabels(s, a, b)
    ensures NodeAt(s, 0, isNumber, true) == Success((Inner([Inner([Leaf(a)]), Leaf(b)]), 9))
    ensures EndAt(s, 9, isNumber) == Success(())
  {
    ExampleInnerCorrected(s, a, b, isNumber);
    var inner := Inner([Leaf(a)]);
    ExampleTailCorrected(s, a, b, inner, isNumber);
    assert [] + [inner] == [inner];
    ItemsTakesNode(s, 1, [], isNumber, true);
    assert EndAt(s, 10, isNumber) == Success(());
  }

  /** As written, the ')' right after a comment is lost and the following leaf joins the inner node. */
  lemma CommentSwallowsParen(isNumber: string -> bool)
    ensures Newick(Example, isNumber, false) == Success(Inner([Inner([Leaf("a"), Leaf("b")])]))
  {
    ExampleChars(Example);
    ExampleLabelA(Example);
    ExampleLabelB(Example);
    ExampleComment(Example);
    ExampleAsWritten(Example, "a", "b", isNumber);
  }

  /** Corrected, the same input gives the tree it describes. */
  lemma CommentKeepsParen(isNumber: string -> bool)
    ensures Newick(Example, isNumber, true) == Success(Inner([Inner([Leaf("a")]), Leaf("b")]))
  {
    ExampleChars(Example);
    ExampleLabelA(Example);
    ExampleLabelB(Example);
    ExampleComment(Example);
    ExampleCorrected(Example, "a", "b", isNumber);
  }

  // ------------------------------------------------------------ the parser object

  /** The spec step r and position agree with a method's result and its final position. */
  predicate Agrees<T(==)>(spec: Result<(T, int), Fault>, r: Result<T, Fault>, position: int)
  {
    if r.Success? then spec == Success((r.value, position)) else spec == Failure(r.error)
  }

  class SimpleParser {
    var newick: string
    var position: int
    var startpos: int
    const isNumber: string -> bool

    constructor (isNumber: string -> bool)
      ensures this.isNumber == isNumber && newick == [] && position == 0
    {
      this.isNumber := isNumber;
      newick := [];
      position := 0;
      startpos := 0;
    }

    /** parse: the tree the input describes, or the exception it raises. */
    method Parse(newickstr: string) returns (r: Result<Node, Fault>)
      modifies this
      ensures r == Newick(newickstr, isNumber, false)
      ensures newick == Prepare(newickstr)
    {
      newick := Prepare(newickstr);
      position := 0;
      var tree := ParseNode();
      if tree.Failure? {
        return Failure(tree.error);
      }
      var e := CheckEnd();
      if e.Failure? {
        return Failure(e.error);
      }
      return Success(tree.value);
    }

    /** parseNode from the current position. */
    method ParseNode() returns (r: Result<Node, Fault>)
      requires position >= 0
      modifies this
      ensures newick == old(newick)
      ensures Agrees(NodeAt(newick, old(position), isNumber, false), r, position)
      ensures r.Success? ==> position > old(position)
      decreases |newick| - position, 0
    {
      if position >= |newick| {
        return Failure(IndexOutOfBounds);
      }
      if newick[position] != '(' {
        return Failure(MissingParen);
      }
      var kids: seq<Node> := [];
      position := position + 1;
      while position < |newick|
        invariant newick == old(newick) && position > old(position)
        invariant Items(newick, position, kids, isNumber, false) == NodeAt(newick, old(position), isNumber, false)
        decreases |newick| - position
      {
        if newick[position] == ')' {
          return Success(Inner(kids));
        }
        var next := ParseItem(kids);
        if next.Failure? {
          return Failure(next.error);
        }
        kids := next.value;
        position := position + 1;
      }
      return Success(Inner(kids));
    }

    /** One turn of parseNode's loop, at a character other than ')': the children it leaves. */
    method ParseItem(kids: seq<Node>) returns (r: Result<seq<Node>, Fault>)
      requires 0 <= position < |newick| && newick[position] != ')'
      modifies this
      ensures newick == old(newick)
      ensures r.Success? ==> position >= old(position)
      ensures Items(newick, old(position), kids, isNumber, false) ==
                if r.Success? then Items(newick, position + 1, r.value, isNumber, false) else Failure(r.error)
      decreases |newick| - position, 1
    {
      var c := newick[position];
      r := Success(kids);
      if c == '(' {
        var sub := ParseNode();
        if sub.Failure? {
          return Failure(sub.error);
        }
        r := Success(kids + [sub.value]);
      } else if c == '\'' {
        var lab := ParseQuotedLabel();
        if lab.Failure? {
          return Failure(lab.error);
        }
        r := Success(kids + [Leaf(lab.value)]);
      } else if c == '[' {
        var e := ParseComment();
        if e.Failure? {
          return Failure(e.error);
        }
      } else if c == ':' {
        var e := ParseBranchLength();
        if e.Failure? {
          return Failure(e.error);
        }
      } else if QtLeaf.IsWhitespace(c) || c == ',' {
      } else if c == ';' {
        if position != |newick| - 1 {
          return Failure(DataAfterEnd);
        }
      } else {
        var lab := ParseUnQuotedLabel();
        if lab.Failure? {
          return Failure(lab.error);
        }
        r := Success(kids + [Leaf(lab.value)]);
      }
    }

    /** parseQuotedLabel from the opening quote at the current position. */
    method ParseQuotedLabel() returns (r: Result<string, Fault>)
      requires position >= 0
      modifies this
      ensures newick == old(newick)
      ensures Agrees(QuotedLabelAt(newick, old(position), ""), r, position)
      ensures r.Success? ==> position > old(position)
    {
      var name := "";
      while true
        invariant newick == old(newick) && position >= old(position)
        invariant QuotedLabelAt(newick, position, name) == QuotedLabelAt(newick, old(position), "")
        decreases |newick| - position
      {
        position := position + 1;
        if position >= |newick| {
          return Failure(IndexOutOfBounds);
        }
        if newick[position] == '\'' {
          break;
        }
        name := name + [newick[position]];
        if position + 1 >= |newick| {
          return Failure(IndexOutOfBounds);
        }
        if newick[position + 1] == '\'' {
          if position + 2 >= |newick| {
            return Failure(IndexOutOfBounds);
          }
          if newick[position + 2] == '\'' {
            name := name + "''";
            position := position + 2;
          }
        }
      }
      return Success(name);
    }

    /** parseUnQuotedLabel from the current position. */
    method ParseUnQuotedLabel() returns (r: Result<string, Fault>)
      requires position >= 0
      modifies this
      ensures newick == old(newick)
      ensures Agrees(UnquotedLabelAt(newick, old(position), ""), r, position)
      ensures r.Success? ==> old(position) < |newick| && (!In(newick[old(position)], LabelEnds) ==> position >= old(position))
    {
      var name := "";
      while true
        invariant newick == old(newick) && position >= old(position)
        invariant UnquotedLabelAt(newick, position, name) == UnquotedLabelAt(newick, old(position), "")
        decreases |newick| - position
      {
        if position >= |newick| {
          return Failure(IndexOutOfBounds);
        }
        if In(newick[position], LabelEnds) {
          break;
        }
        if In(newick[position], LabelBans) {
          return Failure(BadLabelChar);
        }
        name := name + [newick[position]];
        position := position + 1;
      }
      var t := Trim(name);
      if HasBlank(t) {
        return Failure(BlankInLabel);
      }
      position := position - 1;
      r := Success(t);
    }

    /**
     * parseComment from the '[' at the current position.  The position is left
     * one past the closing ']'.
     */
    method ParseComment() returns (r: Result<(), Fault>)
      requires position >= 0
      modifies this
      ensures newick == old(newick) && startpos == old(position)
      ensures r.Success? ==> CommentCloseAt(newick, old(position)) == Success(position - 1)
      ensures r.Success? ==> position > old(position)
      ensures r.Failure? ==> CommentCloseAt(newick, old(position)) == Failure(r.error)
    {
      startpos := position;
      while true
        invariant newick == old(newick) && startpos == old(position) && position >= old(position)
        invariant CommentCloseAt(newick, position) == CommentCloseAt(newick, old(position))
        decreases |newick| - position
      {
        position := position + 1;
        if position >= |newick| {
          return Failure(IndexOutOfBounds);
        }
        if newick[position] == ']' {
          break;
        }
        if position == |newick| - 1 {
          return Failure(UnclosedComment);
        }
      }
      position := position + 1;
      return Success(());
    }

    /** parseBranchLength from the ':' at the current position. */
    method ParseBranchLength() returns (r: Result<(), Fault>)
      requires position >= 0
      modifies this
      ensures newick == old(newick)
      ensures r.Success? ==> BranchLengthAt(newick, old(position), "", isNumber) == Success(position)
      ensures r.Success? ==> position >= old(position)
      ensures r.Failure? ==> BranchLengthAt(newick, old(position), "", isNumber) == Failure(r.error)
    {
      var length := "";
      while true
        invariant newick == old(newick) && position >= old(position)
        invariant BranchLengthAt(newick, position, length, isNumber) == BranchLengthAt(newick, old(position), "", isNumber)
        decreases |newick| - position
      {
        position := position + 1;
        if position >= |newick| {
          return Failure(IndexOutOfBounds);
        }
        if In(newick[position], LengthEnds) {
          break;
        }
        length := length + [newick[position]];
      }
      if !isNumber(length) {
        return Failure(NotANumber);
      }
      position := position - 1;
      return Success(());
    }

    /** checkEnd after the outermost node. */
    method CheckEnd() returns (r: Result<(), Fault>)
      requires position >= 0
      modifies this
      ensures newick == old(newick)
      ensures r == EndAt(newick, old(position), isNumber)
    {
      while true
        invariant newick == old(newick) && position >= old(position)
        invariant EndAt(newick, position, isNumber) == EndAt(newick, old(position), isNumber)
        decreases |newick| - position
      {
        position := position + 1;
        if position >= |newick| {
          break;
        }
        var c := newick[position];
        if !QtLeaf.IsWhitespace(c) {
          if c == ':' {
            var e := ParseBranchLength();
            if e.Failure? {
              return Failure(e.error);
            }
          } else if c == ';' && position != |newick| - 1 {
            return Failure(DataAfterEnd);
          }
        }
      }
      return Success(());
    }
  }
}
