/**
 * QtLeaf: the leaf of the quartet code's unrooted trees.  A leaf has a name,
 * at most one edge into the tree and an id that Tree.init gives it after
 * sorting.  Leaves are ordered by Java's String.compareTo on their names and
 * are equal exactly when their names are.  When a leaf renders itself in
 * Newick form its name is quoted if it holds whitespace or two consecutive
 * single quotes.
 */
module QtLeaf {

  /** Java's Character.isWhitespace: the ASCII controls it names and the Unicode
      space, line and paragraph separators other than the non-breaking ones. */
  predicate IsWhitespace(c: char)
  {
    c == ' ' || c == '\t' || c == '\n' || c == '\U{B}' || c == '\U{C}' || c == '\r'
    || ('\U{1C}' <= c <= '\U{1F}')
    || c == '\U{1680}' || ('\U{2000}' <= c <= '\U{2006}') || ('\U{2008}' <= c <= '\U{200A}')
    || c == '\U{2028}' || c == '\U{2029}' || c == '\U{205F}' || c == '\U{3000}'
  }

  // ------------------------------------------------------------ ordering

  /**
   * Java's String.compareTo: the difference of the first two characters that
   * differ, or else the difference of the lengths.
   */
  function Compare(a: string, b: string): int
    decreases |a|
  {
    if |a| == 0 || |b| == 0 then |a| - |b|
    else if a[0] != b[0] then (a[0] as int) - (b[0] as int)
    else Compare(a[1..], b[1..])
  }

  /** compareTo gives 0 exactly on equal strings. */
  lemma {:induction false} CompareZero(a: string, b: string)
    ensures Compare(a, b) == 0 <==> a == b
    decreases |a|
  {
    if |a| != 0 && |b| != 0 && a[0] == b[0] {
      assert a == [a[0]] + a[1..] && b == [b[0]] + b[1..];
      CompareZero(a[1..], b[1..]);
    }
  }

  /** Comparing the other way round flips the sign. */
  lemma {:induction false} CompareFlips(a: string, b: string)
    ensures Compare(a, b) < 0 <==> Compare(b, a) > 0
    decreases |a|
  {
    if |a| != 0 && |b| != 0 && a[0] == b[0] {
      CompareFlips(a[1..], b[1..]);
    }
  }

  /** "Comes before" is transitive, so a sorted array of names is well defined. */
  lemma {:induction false} CompareTransitive(a: string, b: string, c: string)
    requires Compare(a, b) < 0 && Compare(b, c) < 0
    ensures Compare(a, c) < 0
    decreases |a|
  {
    if |a| != 0 && |b| != 0 && |c| != 0 && a[0] == b[0] && b[0] == c[0] {
      CompareTransitive(a[1..], b[1..], c[1..]);
    }
  }

  /** "Comes before or equals" is transitive as well. */
  lemma CompareAtMostTransitive(a: string, b: string, c: string)
    requires Compare(a, b) <= 0 && Compare(b, c) <= 0
    ensures Compare(a, c) <= 0
  {
    CompareZero(a, b);
    CompareZero(b, c);
    CompareZero(a, c);
    if a != b && b != c {
      CompareTransitive(a, b, c);
    }
  }

  /** Any two names are ordered one way or the other. */
  lemma CompareTotal(a: string, b: string)
    ensures Compare(a, b) <= 0 || Compare(b, a) <= 0
  {
    CompareFlips(a, b);
  }

  // ------------------------------------------------------------ quoting

  /** The name holds whitespace or two consecutive single quotes. */
  predicate NeedsQuotes(name: string)
  {
    exists i :: 0 <= i < |name| && (IsWhitespace(name[i]) || (i + 1 < |name| && name[i] == '\'' && name[i + 1] == '\''))
  }

  /** The name as getString writes it. */
  function Quoted(name: string): string
  {
    if NeedsQuotes(name) then "'" + name + "'" else name
  }

  /** Quoting only ever wraps the name, and wrapping happens exactly when it is needed. */
  lemma QuotedWraps(name: string)
    ensures NeedsQuotes(name) <==> Quoted(name) != name
    ensures NeedsQuotes(name) ==>
              (|Quoted(name)| == |name| + 2 && Quoted(name)[0] == '\'' &&
               Quoted(name)[|name| + 1] == '\'' && Quoted(name)[1..|name| + 1] == name)
  {
    if NeedsQuotes(name) {
      assert |Quoted(name)| == |name| + 2;
    }
  }

  /**
   * The quoting test of getString: scan the name for the first character that
   * calls for quotes and stop there.
   */
  method QuoteName(name: string) returns (t: string)
    ensures t == Quoted(name)
  {
    t := name;
    var i := 0;
    while i < |name|
      invariant 0 <= i <= |name|
      invariant t == name
      invariant forall k :: 0 <= k < i ==> !(IsWhitespace(name[k]) || (k + 1 < |name| && name[k] == '\'' && name[k + 1] == '\''))
    {
      if IsWhitespace(name[i]) || (i + 1 < |name| && name[i] == '\'' && name[i + 1] == '\'') {
        t := "'" + name + "'";
        return;
      }
      i := i + 1;
    }
  }

  // ------------------------------------------------------------ the leaf

  /** What a leaf's single edge leads to. */
  datatype Neighbour = NoEdge | ToInner | ToLeaf(leafName: string)

  /** What getString hands back: text, or the rendering of the inner node at the end of the edge. */
  datatype Rendering = Text(text: string) | ByInnerNode

  /** What delete hands back: null, the other leaf of a two-leaf tree, or the inner node's answer. */
  datatype Removal = Null | OtherLeaf(other: string) | ByNeighbour

  class Leaf {
    var name: string
    var edge: Neighbour
    var id: int

    /** A new leaf has no edge yet. */
    constructor (name: string)
      ensures this.name == name && edge == NoEdge && id == 0
    {
      this.name := name;
      edge := NoEdge;
      id := 0;
    }

    /** addNeighbour gives the leaf its one edge, to the given node. */
    method AddNeighbour(n: Neighbour)
      requires n != NoEdge
      modifies this
      ensures edge == n && name == old(name) && id == old(id)
    {
      edge := n;
    }

    method SetId(i: int)
      modifies this
      ensures id == i && name == old(name) && edge == old(edge)
    {
      id := i;
    }

    /** A leaf has one edge if it is attached to anything, else none. */
    function NumEdges(): (k: nat)
      reads this
      ensures k <= 1
      ensures k == 1 <==> edge != NoEdge
    {
      if edge != NoEdge then 1 else 0
    }

    /** compareTo orders leaves by name. */
    function CompareTo(o: Leaf): (r: int)
      reads this, o
      ensures r == 0 <==> name == o.name
      ensures r < 0 <==> Compare(o.name, name) > 0
    {
      CompareFlips(name, o.name);
      CompareZero(name, o.name);
      Compare(name, o.name)
    }

    /** equals holds for a leaf with the same name; null stands for an object that is not a leaf. */
    function Equals(o: Leaf?): (b: bool)
      reads this, o
      ensures b <==> o != null && CompareTo(o) == 0
      ensures b <==> o != null && Compare(o.name, name) == 0
    {
      if o != null then
        CompareZero(name, o.name);
        CompareZero(o.name, name);
        name == o.name
      else false
    }

    /**
     * delete: a leaf without an edge gives null; a leaf whose edge leads to a
     * leaf gives that leaf, which removeNeighbour returns unchanged; otherwise
     * the inner node at the end of the edge collapses itself.
     */
    function Delete(): (r: Removal)
      reads this
      ensures r == Null <==> edge == NoEdge
      ensures edge.ToLeaf? ==> r == OtherLeaf(edge.leafName)
    {
      match edge
      case NoEdge => Null
      case ToLeaf(other) => OtherLeaf(other)
      case ToInner => ByNeighbour
    }

    /**
     * getString.  Called from outside the tree (callerIsNull), a leaf renders the
     * whole tree: the inner node renders it when there is one, and a two-leaf
     * tree is written (La,Lb).  Called from a neighbour, or with no edge, it
     * writes L followed by its name.
     */
    method GetString(callerIsNull: bool) returns (r: Rendering)
      ensures r == if edge != NoEdge && callerIsNull then
                     (if edge.ToInner? then ByInnerNode
                      else Text("(L" + Quoted(name) + ",L" + Quoted(edge.leafName) + ")"))
                   else Text("L" + Quoted(name))
    {
      var t1 := QuoteName(name);
      if edge != NoEdge && callerIsNull {
        if edge.ToInner? {
          return ByInnerNode;
        }
        var t2 := QuoteName(edge.leafName);
        return Text("(L" + t1 + ",L" + t2 + ")");
      }
      return Text("L" + t1);
    }
  }
}
