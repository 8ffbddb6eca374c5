/**
 * The movie-data tree: the Composite pattern of `MovieData`, `MovieDataLeaf`
 * and `MovieDataComposite` as one datatype, with the three queries the
 * interface offers (indented rendering, imdb-ID lookup, ID-based equality)
 * and the `addChild` update.
 */
module MovieData {
  import opened Wrappers

  /** A name/value pair whose value is either a string (a leaf) or an ordered list of nodes. */
  datatype TreeNode =
    | Leaf(name: string, value: string)
    | Composite(name: string, children: seq<TreeNode>)

  /** The field name whose leaf carries a record's imdb ID. */
  const IdField: string := "imdbID"

  // ---------------------------------------------------------------------
  // Rendering
  // ---------------------------------------------------------------------

  /** The indentation prefix: one tab per level; a negative depth runs the loop zero times. */
  function Tabs(depth: int): (r: string)
    ensures |r| == if depth < 0 then 0 else depth
    ensures forall i :: 0 <= i < |r| ==> r[i] == '\t'
    ensures '\n' !in r
  {
    if depth <= 0 then "" else "\t" + Tabs(depth - 1)
  }

  /**
   * `toStringIndented(depth)`: a leaf is one line `name: value`; a composite is
   * the line `name:` followed by its children rendered one level deeper, in order.
   */
  function Render(t: TreeNode, depth: int): (r: string)
    ensures |r| > 0 && r[|r| - 1] == '\n'
    decreases t
  {
    match t
    case Leaf(n, v) => Tabs(depth) + n + ": " + v + "\n"
    case Composite(n, cs) => Tabs(depth) + n + ":\n" + RenderAll(cs, depth)
  }

  /** The children of a composite at `depth`, each rendered at `depth + 1`, concatenated in order. */
  function RenderAll(cs: seq<TreeNode>, depth: int): (r: string)
    ensures r == "" <==> cs == []
    ensures r != "" ==> r[|r| - 1] == '\n'
    decreases cs
  {
    if cs == [] then ""
    else
      assert cs[|cs| - 1] in cs;
      RenderAll(cs[..|cs| - 1], depth) + Render(cs[|cs| - 1], depth + 1)
  }

  /** `toString()`: the rendering at depth 0. */
  function ToString(t: TreeNode): (r: string)
    ensures |r| > 0 && r[|r| - 1] == '\n'
  {
    Render(t, 0)
  }

  // ---------------------------------------------------------------------
  // imdb ID lookup
  // ---------------------------------------------------------------------

  /**
   * `getId()`: a leaf yields its value when it is named `imdbID`; a composite
   * yields the first ID found among its children, in order.
   */
  function RecordId(t: TreeNode): Option<string>
    decreases t
  {
    match t
    case Leaf(n, v) => if n == IdField then Some(v) else None
    case Composite(_, cs) => FirstId(cs)
  }

  /** The loop of `MovieDataComposite.getId`: the first child whose ID is non-null. */
  function FirstId(cs: seq<TreeNode>): Option<string>
    decreases cs
  {
    if cs == [] then None
    else
      assert cs[0] in cs;
      var id := RecordId(cs[0]);
      if id.Some? then id else FirstId(cs[1..])
  }

  /** Reference definition: the values of all `imdbID` leaves of the subtree, in pre-order. */
  function IdLeaves(t: TreeNode): seq<string>
    decreases t
  {
    match t
    case Leaf(n, v) => if n == IdField then [v] else []
    case Composite(_, cs) => IdLeavesAll(cs)
  }

  function IdLeavesAll(cs: seq<TreeNode>): seq<string>
    decreases cs
  {
    if cs == [] then []
    else
      assert cs[0] in cs;
      IdLeaves(cs[0]) + IdLeavesAll(cs[1..])
  }

  /** `getId` is a depth-first, pre-order search of the whole subtree: the first `imdbID` leaf wins, and null means there is none. */
  lemma {:induction false} RecordIdIsFirstIdLeaf(t: TreeNode)
    ensures RecordId(t) == if IdLeaves(t) == [] then None else Some(IdLeaves(t)[0])
    decreases t
  {
    match t
    case Leaf(_, _) =>
    case Composite(_, cs) => FirstIdIsFirstIdLeaf(cs);
  }

  lemma {:induction false} FirstIdIsFirstIdLeaf(cs: seq<TreeNode>)
    ensures FirstId(cs) == if IdLeavesAll(cs) == [] then None else Some(IdLeavesAll(cs)[0])
    decreases cs
  {
    if cs != [] {
      assert cs[0] in cs;
      RecordIdIsFirstIdLeaf(cs[0]);
      FirstIdIsFirstIdLeaf(cs[1..]);
    }
  }

  // ---------------------------------------------------------------------
  // Equality
  // ---------------------------------------------------------------------

  /** What `MovieData.equals` documents: both nodes carry an imdb ID, and it is the same. */
  predicate SameRecord(a: TreeNode, b: TreeNode)
  {
    RecordId(a).Some? && RecordId(a) == RecordId(b)
  }

  /**
   * `self.equals(other)`, dispatched on the class of `self`. `other` is `None`
   * when the argument is null or not a `MovieData`. `sameIdObject` says whether
   * the two ID strings are one and the same Java object; only the composite's
   * `==` comparison looks at it, and reference equality implies equal contents.
   */
  function Equals(self: TreeNode, other: Option<TreeNode>, sameIdObject: bool): (r: bool)
    requires sameIdObject && other.Some? && RecordId(self).Some? && RecordId(other.value).Some?
             ==> RecordId(self) == RecordId(other.value)
    ensures r ==> other.Some?
    ensures self.Leaf? ==> (r <==> other.Some? && SameRecord(self, other.value))
    ensures self.Composite? && other.Some? && SameRecord(self, other.value) && sameIdObject ==> r
    ensures self.Composite? && other.Some? && RecordId(self).None? && RecordId(other.value).None? ==> r
    ensures self.Composite? && other.Some? && RecordId(self).None? != RecordId(other.value).None? ==> !r
    ensures self.Composite? && RecordId(self).Some? && !sameIdObject ==> !r
    ensures r && RecordId(self).Some? ==> SameRecord(self, other.value)
  {
    match self
    case Leaf(_, _) =>
      other.Some? && RecordId(self).Some? && RecordId(other.value).Some?
      && RecordId(self).value == RecordId(other.value).value
    case Composite(_, _) =>
      other.Some? &&
      if RecordId(self).Some? && RecordId(other.value).Some? then sameIdObject
      else RecordId(self) == RecordId(other.value)
  }

  /**
   * Sharing a record is an equivalence on the nodes that carry an ID: it
   * holds of such a node and itself, and is symmetric and transitive.
   */
  lemma SameRecordEquivalence(a: TreeNode, b: TreeNode, c: TreeNode)
    ensures SameRecord(a, a) <==> RecordId(a).Some?
    ensures SameRecord(a, b) ==> SameRecord(b, a)
    ensures SameRecord(a, b) && SameRecord(b, c) ==> SameRecord(a, c)
  {
  }

  /** Between two nodes of the same class, `equals` is symmetric. */
  lemma EqualsSymmetric(a: TreeNode, b: TreeNode, sameIdObject: bool)
    requires a.Leaf? == b.Leaf?
    requires sameIdObject && RecordId(a).Some? && RecordId(b).Some? ==> RecordId(a) == RecordId(b)
    ensures Equals(a, Some(b), sameIdObject) == Equals(b, Some(a), sameIdObject)
  {
  }

  /** The two implementations disagree on id-less nodes: a leaf without an ID is not equal to itself, a composite without one is. */
  lemma IdlessEqualityDiffers(leaf: TreeNode, comp: TreeNode, b: bool)
    requires leaf.Leaf? && leaf.name != IdField
    requires comp.Composite? && RecordId(comp).None?
    ensures !Equals(leaf, Some(leaf), b)
    ensures Equals(comp, Some(comp), b)
  {
  }

  // ---------------------------------------------------------------------
  // addChild
  // ---------------------------------------------------------------------

  /** `addChild(c)`: `c` goes after the existing children; the name and those children stay. */
  function WithChild(parent: TreeNode, c: TreeNode): (r: TreeNode)
    requires parent.Composite?
    ensures r.Composite? && r.name == parent.name
    ensures |r.children| == |parent.children| + 1
    ensures r.children[..|parent.children|] == parent.children && r.children[|parent.children|] == c
  {
    Composite(parent.name, parent.children + [c])
  }

  /**
   * A `MovieDataComposite` object while it is being filled: its final name
   * and the list of children that `addChild` appends to in place.
   */
  class CompositeNode {
    const name: string
    var children: seq<TreeNode>

    /** The node the object currently stands for. */
    function Node(): TreeNode
      reads this
    {
      Composite(name, children)
    }

    /** `new MovieDataComposite(name)`: no children yet. */
    constructor (name: string)
      ensures Node() == Composite(name, [])
    {
      this.name := name;
      children := [];
    }

    /** `addChild(c)`: the object now stands for the old node with `c` appended. */
    method AddChild(c: TreeNode)
      modifies this
      ensures Node() == WithChild(old(Node()), c)
    {
      children := children + [c];
    }
  }

  /**
   * The tree of the composite tests, built with `addChild`. The test adds
   * `c2` to the root before filling it, and the root sees the later children
   * through the shared reference; children are values here, so `c2` is
   * filled first and then added.
   */
  method ExampleTree() returns (t: TreeNode)
    ensures t == Composite("0", [Leaf("c1", "1"), Composite("c2", [Leaf("c3", "3"), Leaf(IdField, "999")])])
    ensures RecordId(t) == Some("999")
  {
    var o := new CompositeNode("0");
    var c2 := new CompositeNode("c2");
    o.AddChild(Leaf("c1", "1"));
    assert o.children == [Leaf("c1", "1")];
    c2.AddChild(Leaf("c3", "3"));
    assert c2.children == [Leaf("c3", "3")];
    c2.AddChild(Leaf(IdField, "999"));
    assert c2.children == [Leaf("c3", "3"), Leaf(IdField, "999")];
    o.AddChild(c2.Node());
    assert o.children == [Leaf("c1", "1"), Composite("c2", [Leaf("c3", "3"), Leaf(IdField, "999")])];
    t := o.Node();
    var c3, c4 := Leaf("c3", "3"), Leaf(IdField, "999");
    assert [c3, c4][1..] == [c4] && RecordId(c3) == None && FirstId([c4]) == Some("999");
    assert RecordId(Composite("c2", [c3, c4])) == Some("999");
    assert FirstId([Composite("c2", [c3, c4])]) == Some("999");
    assert t.children[1..] == [Composite("c2", [c3, c4])] && RecordId(t.children[0]) == None;
  }

  /** Adding a child appends exactly that child's rendering, one level deeper. */
  lemma AddChildRender(parent: TreeNode, c: TreeNode, depth: int)
    requires parent.Composite?
    ensures Render(WithChild(parent, c), depth) == Render(parent, depth) + Render(c, depth + 1)
  {
    var cs := parent.children + [c];
    assert cs[..|cs| - 1] == parent.children;
  }

  /** Adding a child changes the ID only when the composite had none; then the new child's ID is taken. */
  lemma AddChildRecordId(parent: TreeNode, c: TreeNode)
    requires parent.Composite?
    ensures RecordId(WithChild(parent, c)) == if RecordId(parent).Some? then RecordId(parent) else RecordId(c)
  {
    FirstIdAppend(parent.children, c);
  }

  lemma {:induction false} FirstIdAppend(cs: seq<TreeNode>, c: TreeNode)
    ensures FirstId(cs + [c]) == if FirstId(cs).Some? then FirstId(cs) else RecordId(c)
    decreases |cs|
  {
    if cs == [] {
      assert [c][1..] == [];
    } else {
      assert (cs + [c])[0] == cs[0];
      assert (cs + [c])[1..] == cs[1..] + [c];
      FirstIdAppend(cs[1..], c);
    }
  }

  // ---------------------------------------------------------------------
  // Indentation: each level of nesting adds one tab to every line
  // ---------------------------------------------------------------------

  /** Reference definition: `s` with one more tab at the start of each of its lines. */
  function Indent(s: string): string
  {
    IndentFrom(s, true)
  }

  function IndentFrom(s: string, atLineStart: bool): string
    decreases |s|
  {
    if s == [] then ""
    else (if atLineStart then "\t" else "") + [s[0]] + IndentFrom(s[1..], s[0] == '\n')
  }

  /** No name or value in the tree contains a line break. */
  predicate SingleLineFields(t: TreeNode)
    decreases t
  {
    match t
    case Leaf(n, v) => '\n' !in n && '\n' !in v
    case Composite(n, cs) => '\n' !in n && forall c :: c in cs ==> SingleLineFields(c)
  }

  lemma {:induction false} IndentFromPlain(p: string, rest: string)
    requires '\n' !in p
    ensures IndentFrom(p + rest, false) == p + IndentFrom(rest, false)
    decreases |p|
  {
    if p != [] {
      var s := p + rest;
      assert p[0] in p;
      assert s[0] == p[0];
      assert s[1..] == p[1..] + rest;
      calc {
        IndentFrom(s, false);
        "" + [s[0]] + IndentFrom(s[1..], s[0] == '\n');
        [p[0]] + IndentFrom(p[1..] + rest, false);
        { IndentFromPlain(p[1..], rest); }
        [p[0]] + (p[1..] + IndentFrom(rest, false));
        { assert p == [p[0]] + p[1..]; }
        p + IndentFrom(rest, false);
      }
    } else {
      assert p + rest == rest;
    }
  }

  /** A non-empty line fragment without a line break gets one tab in front and is otherwise copied. */
  lemma IndentFromLine(p: string, rest: string)
    requires p != [] && '\n' !in p
    ensures IndentFrom(p + rest, true) == "\t" + p + IndentFrom(rest, false)
  {
    assert p[0] in p;
    assert (p + rest)[1..] == p[1..] + rest;
    IndentFromPlain(p[1..], rest);
  }

  lemma IndentFromNewline(rest: string, st: bool)
    ensures IndentFrom("\n" + rest, false) == "\n" + IndentFrom(rest, true)
  {
    assert ("\n" + rest)[1..] == rest;
  }

  lemma {:induction false} IndentFromConcat(a: string, b: string)
    requires a != [] && a[|a| - 1] == '\n'
    ensures IndentFrom(a + b, true) == IndentFrom(a, true) + IndentFrom(b, true)
  {
    IndentFromConcatAt(a, b, true);
  }

  lemma {:induction false} IndentFromConcatAt(a: string, b: string, st: bool)
    requires a != [] && a[|a| - 1] == '\n'
    ensures IndentFrom(a + b, st) == IndentFrom(a, st) + IndentFrom(b, true)
    decreases |a|
  {
    assert (a + b)[0] == a[0];
    assert (a + b)[1..] == a[1..] + b;
    if |a| == 1 {
      assert a[1..] == [];
      assert a[0] == '\n';
    } else {
      IndentFromConcatAt(a[1..], b, a[0] == '\n');
    }
  }

  lemma NoBreakConcat(a: string, b: string)
    requires '\n' !in a && '\n' !in b
    ensures '\n' !in a + b
  {
  }

  /** Rendering one level deeper is the same text with one more tab at the start of every line. */
  lemma {:induction false} RenderDeeperIndentsEveryLine(t: TreeNode, depth: nat)
    requires SingleLineFields(t)
    ensures Render(t, depth + 1) == Indent(Render(t, depth))
    decreases t, 1
  {
    match t
    case Leaf(n, v) => LeafDeeper(n, v, depth);
    case Composite(n, cs) =>
      RenderAllDeeperIndents(cs, depth);
      CompositeDeeper(n, cs, depth);
  }

  lemma LeafDeeper(n: string, v: string, depth: nat)
    requires '\n' !in n && '\n' !in v
    ensures Render(Leaf(n, v), depth + 1) == Indent(Render(Leaf(n, v), depth))
  {
    var line := Tabs(depth) + n + ": " + v;
    assert '\n' !in line by {
      NoBreakConcat(Tabs(depth), n);
      NoBreakConcat(Tabs(depth) + n, ": ");
      NoBreakConcat(Tabs(depth) + n + ": ", v);
    }
    IndentFromLine(line, "\n");
    IndentFromNewline("", false);
    assert "\n" + "" == "\n";
    assert Tabs(depth + 1) + n + ": " + v == "\t" + line;
  }

  lemma HeadLine(n: string, depth: int)
    requires '\n' !in n
    ensures '\n' !in Tabs(depth) + n + ":"
  {
    NoBreakConcat(Tabs(depth), n);
    NoBreakConcat(Tabs(depth) + n, ":");
  }

  /** A composite's rendering is its header line, a line break, and its children's rendering. */
  lemma CompositeRenderSplit(n: string, cs: seq<TreeNode>, depth: int)
    ensures Render(Composite(n, cs), depth) == (Tabs(depth) + n + ":") + ("\n" + RenderAll(cs, depth))
  {
    var h := Tabs(depth) + n;
    assert h + ":\n" == (h + ":") + "\n";
  }

  lemma CompositeDeeper(n: string, cs: seq<TreeNode>, depth: nat)
    requires '\n' !in n
    requires RenderAll(cs, depth + 1) == IndentFrom(RenderAll(cs, depth), true)
    ensures Render(Composite(n, cs), depth + 1) == Indent(Render(Composite(n, cs), depth))
  {
    var head := Tabs(depth) + n + ":";
    var below := RenderAll(cs, depth);
    HeadLine(n, depth);
    CompositeRenderSplit(n, cs, depth);
    CompositeRenderSplit(n, cs, depth + 1);
    IndentFromLine(head, "\n" + below);
    IndentFromNewline(below, false);
    assert Tabs(depth + 1) == "\t" + Tabs(depth);
    assert Tabs(depth + 1) + n + ":" == "\t" + head;
    calc {
      Indent(Render(Composite(n, cs), depth));
      "\t" + head + ("\n" + IndentFrom(below, true));
      ("\t" + head) + ("\n" + RenderAll(cs, depth + 1));
    }
  }

  lemma {:induction false} RenderAllDeeperIndents(cs: seq<TreeNode>, depth: nat)
    requires forall c :: c in cs ==> SingleLineFields(c)
    ensures RenderAll(cs, depth + 1) == IndentFrom(RenderAll(cs, depth), true)
    decreases cs, 0
  {
    if cs != [] {
      var init, last := cs[..|cs| - 1], cs[|cs| - 1];
      assert last in cs;
      assert forall c :: c in init ==> c in cs;
      RenderAllDeeperIndents(init, depth);
      RenderDeeperIndentsEveryLine(last, depth + 1);
      assert RenderAll(cs, depth) == RenderAll(init, depth) + Render(last, depth + 1);
      assert RenderAll(cs, depth + 1) == RenderAll(init, depth + 1) + Render(last, depth + 2);
      if init != [] {
        IndentFromConcat(RenderAll(init, depth), Render(last, depth + 1));
      } else {
        assert RenderAll(cs, depth) == Render(last, depth + 1);
        assert RenderAll(cs, depth + 1) == Render(last, depth + 2);
      }
    }
  }
}
