/**
 * Tree nodes (`DataTreeNode`): children appended in place, the `treeString` box-drawing
 * rendering, and the post-order iterator. Rendering and iteration read a node through the
 * value `Tree` it roots.
 */
module TreeNodes {
  import opened Failures
  import opened PrimitiveLists

  /** The tree a node roots: its element and its children's trees, in order. */
  datatype Tree<E> = Tree(element: E, children: seq<Tree<E>>)

  /** The number of nodes. */
  function Size<E>(t: Tree<E>): (n: nat)
    decreases t
  {
    1 + SizeAll(t.children)
  }

  function SizeAll<E>(ts: seq<Tree<E>>): nat
    decreases ts
  {
    if ts == [] then 0 else Size(ts[0]) + SizeAll(ts[1..])
  }

  // ------------------------------ nodes ------------------------------

  /** `DataTreeNode`: an element and a mutable list of child nodes. */
  class DataTreeNode<E> {
    const element: E
    var children: seq<DataTreeNode<E>>
    ghost var Repr: set<object>

    /** Every node below this one is reached through exactly one child, so the nodes form a tree. */
    ghost predicate Valid()
      reads this, Repr
      decreases Repr
    {
      && this in Repr
      && forall i :: 0 <= i < |children| ==>
           && children[i] in Repr && children[i].Repr <= Repr && this !in children[i].Repr
           && children[i].Valid()
    }

    /** `treeNodeOf(element)`: a node with no children. */
    constructor (element: E)
      ensures Valid() && fresh(Repr)
      ensures this.element == element && children == [] && Shape() == Tree(element, [])
    {
      this.element := element;
      children := [];
      Repr := {this};
    }

    /** The tree this node roots. */
    function Shape(): (t: Tree<E>)
      reads this, Repr
      requires Valid()
      ensures t.element == element && |t.children| == |children|
      decreases Repr, |children| + 1
    {
      Tree(element, ShapesFrom(0))
    }

    /** The trees of the children from index `i` on. */
    function ShapesFrom(i: nat): (ts: seq<Tree<E>>)
      reads this, Repr
      requires Valid() && i <= |children|
      ensures |ts| == |children| - i
      ensures forall k :: 0 <= k < |ts| ==> ts[k] == children[i + k].Shape()
      decreases Repr, |children| - i
    {
      if i == |children| then [] else [children[i].Shape()] + ShapesFrom(i + 1)
    }

    /** `plusAssign(value)`: appends a new leaf holding `value`. */
    method PlusAssign(value: E)
      requires Valid()
      modifies this
      ensures Valid() && fresh(Repr - old(Repr))
      ensures |children| == |old(children)| + 1 && children[..|old(children)|] == old(children)
      ensures Shape() == Tree(element, old(Shape()).children + [Tree(value, [])])
    {
      var child := new DataTreeNode(value);
      PlusAssignNode(child);
    }

    /** `plus(value)`: `plusAssign(value)`, returning this node. */
    method Plus(value: E) returns (r: DataTreeNode<E>)
      requires Valid()
      modifies this
      ensures r == this && Valid() && fresh(Repr - old(Repr))
      ensures |children| == |old(children)| + 1 && children[..|old(children)|] == old(children)
      ensures Shape() == Tree(element, old(Shape()).children + [Tree(value, [])])
    {
      PlusAssign(value);
      r := this;
    }

    /**
     * `plusAssign(node)` of `MutableTreeNode`: appends `node` as the last child. The node
     * must not already belong to this tree.
     */
    method PlusAssignNode(node: DataTreeNode<E>)
      requires Valid() && node.Valid() && Repr !! node.Repr
      modifies this
      ensures Valid() && Repr == old(Repr) + node.Repr
      ensures children == old(children) + [node]
      ensures Shape() == Tree(element, old(Shape()).children + [node.Shape()])
    {
      ghost var before := ShapesFrom(0);
      children := children + [node];
      Repr := Repr + node.Repr;
      ghost var after := ShapesFrom(0);
      assert after == before + [node.Shape()];
    }

    /** `plus(node)` of `MutableTreeNode`: `plusAssign(node)`, returning this node. */
    method PlusNode(node: DataTreeNode<E>) returns (r: DataTreeNode<E>)
      requires Valid() && node.Valid() && Repr !! node.Repr
      modifies this
      ensures r == this && Valid() && Repr == old(Repr) + node.Repr
      ensures children == old(children) + [node]
      ensures Shape() == Tree(element, old(Shape()).children + [node.Shape()])
    {
      PlusAssignNode(node);
      r := this;
    }
  }

  /** `DataTreeNode.equals`: the elements are compared, the children are not. */
  function TreeNodesEqual<E(==)>(a: DataTreeNode<E>, b: DataTreeNode<E>): (r: bool)
    ensures r <==> a.element == b.element
    ensures a == b ==> r
  {
    a.element == b.element
  }

  // ------------------------------ styles ------------------------------

  /** `TreeNode.Style`: the four characters the lines of a tree string are drawn with. */
  datatype Style = Style(vertical: char, horizontal: char, turnstile: char, corner: char)

  /**
   * `Style(chars)`: the characters are read first, so a string shorter than four fails with
   * IndexOutOfBounds; a longer one fails the length requirement with IllegalArgument.
   */
  function StyleOf(chars: string): (r: Result<Style>)
    ensures |chars| < 4 ==> r == Err(IndexOutOfBounds)
    ensures |chars| > 4 ==> r == Err(IllegalArgument)
    ensures |chars| == 4 ==> r == Ok(Style(chars[0], chars[1], chars[2], chars[3]))
  {
    if |chars| < 4 then Err(IndexOutOfBounds)
    else if |chars| > 4 then Err(IllegalArgument)
    else Ok(Style(chars[0], chars[1], chars[2], chars[3]))
  }

  /** `UTF_8`, the default style. */
  const Utf8: Style := Style('│', '─', '├', '└')
  /** `ASCII`. */
  const Ascii: Style := Style('|', '-', '+', '+')

  // ------------------------------ tree strings ------------------------------

  /** What `prefixWith` writes for one ancestor: a vertical line below a non-last child, else blanks. */
  function Gutter(branch: bool, lines: Style): (r: string)
    ensures |r| == 4
  {
    if branch then [lines.vertical, ' ', ' ', ' '] else "    "
  }

  /** The gutters of all ancestors, outermost first. */
  function Indent(branches: seq<bool>, lines: Style): (r: string)
    ensures |r| == 4 * |branches|
  {
    if branches == [] then ""
    else Indent(branches[..|branches| - 1], lines) + Gutter(branches[|branches| - 1], lines)
  }

  /** `prefixWith(corner)`: the indentation, then the corner, two horizontals and a blank. */
  function Prefix(branches: seq<bool>, corner: char, lines: Style): (r: string)
    ensures |r| == 4 * |branches| + 4
  {
    Indent(branches, lines) + [corner, lines.horizontal, lines.horizontal, ' ']
  }

  /**
   * The text `appendSubtree` appends for `t` below ancestors `branches`: the node's string and
   * a newline, then each child prefixed with a turnstile, or a corner for the last one.
   */
  function Subtree<E>(t: Tree<E>, lines: Style, branches: seq<bool>, nodeString: E -> string): string
    decreases t
  {
    nodeString(t.element) + "\n" + ChildrenText(t.children, lines, branches, nodeString)
  }

  function ChildrenText<E>(cs: seq<Tree<E>>, lines: Style, branches: seq<bool>, nodeString: E -> string): string
    decreases cs
  {
    if cs == [] then ""
    else
      Prefix(branches, if |cs| == 1 then lines.corner else lines.turnstile, lines)
      + Subtree(cs[0], lines, branches + [|cs| > 1], nodeString)
      + ChildrenText(cs[1..], lines, branches, nodeString)
  }

  /**
   * The lines of a tree string, as a reference definition independent of the builder: the
   * node's string, then for each child its own lines with the child's prefix on the first.
   */
  function LinesOf<E>(t: Tree<E>, lines: Style, branches: seq<bool>, nodeString: E -> string): (r: seq<string>)
    ensures |r| >= 1 && r[0] == nodeString(t.element)
    decreases t
  {
    [nodeString(t.element)] + ChildLines(t.children, lines, branches, nodeString)
  }

  function ChildLines<E>(cs: seq<Tree<E>>, lines: Style, branches: seq<bool>, nodeString: E -> string): seq<string>
    decreases cs
  {
    if cs == [] then []
    else
      var ls := LinesOf(cs[0], lines, branches + [|cs| > 1], nodeString);
      [Prefix(branches, if |cs| == 1 then lines.corner else lines.turnstile, lines) + ls[0]]
      + ls[1..] + ChildLines(cs[1..], lines, branches, nodeString)
  }

  /** Each line followed by a newline. */
  function Unlines(ls: seq<string>): string {
    if ls == [] then "" else ls[0] + "\n" + Unlines(ls[1..])
  }

  /** The lines separated by newlines, with none after the last. */
  function Join(ls: seq<string>): string
    requires |ls| >= 1
  {
    if |ls| == 1 then ls[0] else ls[0] + "\n" + Join(ls[1..])
  }

  lemma {:induction false} UnlinesAppend(a: seq<string>, b: seq<string>)
    ensures Unlines(a + b) == Unlines(a) + Unlines(b)
  {
    if a != [] {
      assert (a + b)[0] == a[0];
      assert (a + b)[1..] == a[1..] + b;
      UnlinesAppend(a[1..], b);
      calc {
        Unlines(a + b);
        a[0] + "\n" + Unlines(a[1..] + b);
        a[0] + "\n" + (Unlines(a[1..]) + Unlines(b));
        (a[0] + "\n" + Unlines(a[1..])) + Unlines(b);
        Unlines(a) + Unlines(b);
      }
    } else {
      assert a + b == b;
    }
  }

  lemma {:induction false} UnlinesIsJoin(ls: seq<string>)
    requires |ls| >= 1
    ensures Unlines(ls) == Join(ls) + "\n"
  {
    if |ls| > 1 {
      UnlinesIsJoin(ls[1..]);
    }
  }

  /** The appended text is exactly the reference lines, each ended by a newline. */
  lemma {:induction false} SubtreeIsLines<E>(t: Tree<E>, lines: Style, branches: seq<bool>, nodeString: E -> string)
    ensures Subtree(t, lines, branches, nodeString) == Unlines(LinesOf(t, lines, branches, nodeString))
    decreases t, 1
  {
    var rest := ChildLines(t.children, lines, branches, nodeString);
    ChildrenTextIsLines(t.children, lines, branches, nodeString);
    assert ([nodeString(t.element)] + rest)[1..] == rest;
  }

  lemma {:induction false} ChildrenTextIsLines<E>(cs: seq<Tree<E>>, lines: Style, branches: seq<bool>, nodeString: E -> string)
    ensures ChildrenText(cs, lines, branches, nodeString) == Unlines(ChildLines(cs, lines, branches, nodeString))
    decreases cs, 0
  {
    if cs != [] {
      var inner := branches + [|cs| > 1];
      var ls := LinesOf(cs[0], lines, inner, nodeString);
      var prefix := Prefix(branches, if |cs| == 1 then lines.corner else lines.turnstile, lines);
      var rest := ChildLines(cs[1..], lines, branches, nodeString);
      SubtreeIsLines(cs[0], lines, inner, nodeString);
      ChildrenTextIsLines(cs[1..], lines, branches, nodeString);
      assert ls == [ls[0]] + ls[1..];
      assert Unlines(ls) == ls[0] + "\n" + Unlines(ls[1..]);
      assert ([prefix + ls[0]] + ls[1..])[1..] == ls[1..];
      UnlinesAppend([prefix + ls[0]] + ls[1..], rest);
    }
  }

  /** One line per node. */
  lemma {:induction false} LineCount<E>(t: Tree<E>, lines: Style, branches: seq<bool>, nodeString: E -> string)
    ensures |LinesOf(t, lines, branches, nodeString)| == Size(t)
    decreases t, 1
  {
    ChildLineCount(t.children, lines, branches, nodeString);
  }

  lemma {:induction false} ChildLineCount<E>(cs: seq<Tree<E>>, lines: Style, branches: seq<bool>, nodeString: E -> string)
    ensures |ChildLines(cs, lines, branches, nodeString)| == SizeAll(cs)
    decreases cs, 0
  {
    if cs != [] {
      LineCount(cs[0], lines, branches + [|cs| > 1], nodeString);
      ChildLineCount(cs[1..], lines, branches, nodeString);
    }
  }

  /** The gutters of `branches` followed by one more gutter are the gutters of the longer list. */
  lemma IndentSnoc(branches: seq<bool>, branch: bool, lines: Style)
    ensures Indent(branches + [branch], lines) == Indent(branches, lines) + Gutter(branch, lines)
  {
    assert (branches + [branch])[..|branches|] == branches;
  }

  /** Every line from index `from` on starts with the gutters of `branches` and continues past them. */
  ghost predicate IndentedFrom(ls: seq<string>, from: nat, branches: seq<bool>, lines: Style) {
    forall i :: from <= i < |ls| ==> |ls[i]| >= 4 * |branches| + 4 && ls[i][..4 * |branches|] == Indent(branches, lines)
  }

  /**
   * Every line below a node's own starts with the gutters of the node's ancestors and holds
   * at least one more four-character column.
   */
  lemma {:induction false} LinesIndented<E>(t: Tree<E>, lines: Style, branches: seq<bool>, nodeString: E -> string)
    ensures IndentedFrom(LinesOf(t, lines, branches, nodeString), 1, branches, lines)
    decreases t, 1
  {
    var rest := ChildLines(t.children, lines, branches, nodeString);
    ChildLinesIndented(t.children, lines, branches, nodeString);
    var ls := LinesOf(t, lines, branches, nodeString);
    assert ls == [nodeString(t.element)] + rest;
    forall i | 1 <= i < |ls|
      ensures |ls[i]| >= 4 * |branches| + 4 && ls[i][..4 * |branches|] == Indent(branches, lines)
    {
      assert ls[i] == rest[i - 1];
    }
  }

  lemma {:induction false} ChildLinesIndented<E>(cs: seq<Tree<E>>, lines: Style, branches: seq<bool>, nodeString: E -> string)
    ensures IndentedFrom(ChildLines(cs, lines, branches, nodeString), 0, branches, lines)
    decreases cs, 0
  {
    if cs != [] {
      var inner := branches + [|cs| > 1];
      var own := LinesOf(cs[0], lines, inner, nodeString);
      var prefix := Prefix(branches, if |cs| == 1 then lines.corner else lines.turnstile, lines);
      var rest := ChildLines(cs[1..], lines, branches, nodeString);
      LinesIndented(cs[0], lines, inner, nodeString);
      ChildLinesIndented(cs[1..], lines, branches, nodeString);
      IndentSnoc(branches, |cs| > 1, lines);
      var ls := [prefix + own[0]] + own[1..] + rest;
      assert ls == ChildLines(cs, lines, branches, nodeString);
      forall i | 0 <= i < |ls|
        ensures |ls[i]| >= 4 * |branches| + 4 && ls[i][..4 * |branches|] == Indent(branches, lines)
      {
        if i == 0 {
          assert ls[i] == prefix + own[0];
          assert prefix[..4 * |branches|] == Indent(branches, lines);
          assert (prefix + own[0])[..4 * |branches|] == prefix[..4 * |branches|];
        } else if i < |own| {
          assert ls[i] == own[i];
          assert |own[i]| >= 4 * |inner| + 4 && own[i][..4 * |inner|] == Indent(inner, lines);
          assert Indent(inner, lines)[..4 * |branches|] == Indent(branches, lines);
          assert own[i][..4 * |inner|][..4 * |branches|] == own[i][..4 * |branches|];
        } else {
          assert ls[i] == rest[i - |own|];
        }
      }
    }
  }

  /** The children text from index `i` on: child `i`'s own part, then the text of the rest. */
  lemma ChildrenTextStep<E>(built: string, cs: seq<Tree<E>>, i: nat, lines: Style, branches: seq<bool>,
                            nodeString: E -> string)
    requires i < |cs|
    ensures built + ChildrenText(cs[i..], lines, branches, nodeString)
      == built + Prefix(branches, if i == |cs| - 1 then lines.corner else lines.turnstile, lines)
         + Subtree(cs[i], lines, branches + [i < |cs| - 1], nodeString)
         + ChildrenText(cs[i + 1..], lines, branches, nodeString)
  {
    assert cs[i..][0] == cs[i] && cs[i..][1..] == cs[i + 1..];
  }

  /** `prefixWith`: the gutters of `branches`, visited in order, then the corner. */
  method PrefixWith(builder: string, corner: char, lines: Style, branches: MutablePrimitiveList<bool>)
    returns (built: string)
    requires branches.Valid()
    ensures built == builder + Prefix(branches.Contents(), corner, lines)
  {
    var gutters := branches.Elements();
    built := builder;
    for i := 0 to |gutters|
      invariant built == builder + Indent(gutters[..i], lines)
    {
      assert gutters[..i + 1][..i] == gutters[..i];
      built := built + Gutter(gutters[i], lines);
    }
    assert gutters[..|gutters|] == gutters;
    built := built + [corner, lines.horizontal, lines.horizontal, ' '];
  }

  /**
   * `appendSubtree`: appends the subtree's text to the builder, pushing a flag for each child
   * visited (true unless it is the last) and popping it again afterwards.
   */
  method AppendSubtree<E>(t: Tree<E>, builder: string, lines: Style, branches: MutablePrimitiveList<bool>,
                          nodeString: E -> string)
    returns (built: string)
    requires branches.Valid()
    modifies branches.Repr
    ensures branches.Valid() && fresh(branches.Repr - old(branches.Repr))
    ensures branches.Contents() == old(branches.Contents())
    ensures built == builder + Subtree(t, lines, old(branches.Contents()), nodeString)
    decreases t, 0
  {
    built := builder + nodeString(t.element) + "\n";
    built := AppendChildren(t.children, built, lines, branches, nodeString);
  }

  /** The children part of `appendSubtree`: each child with a turnstile, the last with a corner. */
  method AppendChildren<E>(cs: seq<Tree<E>>, builder: string, lines: Style, branches: MutablePrimitiveList<bool>,
                           nodeString: E -> string)
    returns (built: string)
    requires branches.Valid()
    modifies branches.Repr
    ensures branches.Valid() && fresh(branches.Repr - old(branches.Repr))
    ensures branches.Contents() == old(branches.Contents())
    ensures built == builder + ChildrenText(cs, lines, old(branches.Contents()), nodeString)
    decreases cs, 2
  {
    ghost var b := branches.Contents();
    built := builder;
    if cs != [] {
      var i := 0;
      while i < |cs| - 1
        invariant 0 <= i <= |cs| - 1
        invariant branches.Valid() && fresh(branches.Repr - old(branches.Repr))
        invariant branches.Contents() == b
        invariant built + ChildrenText(cs[i..], lines, b, nodeString) == builder + ChildrenText(cs, lines, b, nodeString)
      {
        ChildrenTextStep(built, cs, i, lines, b, nodeString);
        built := AppendChild(cs[i], built, lines.turnstile, true, lines, branches, nodeString);
        i := i + 1;
      }
      ChildrenTextStep(built, cs, i, lines, b, nodeString);
      built := AppendChild(cs[i], built, lines.corner, false, lines, branches, nodeString);
      assert cs[i + 1..] == [];
    }
  }

  /** One child in `appendSubtree`: its prefix, then its subtree with `branch` pushed meanwhile. */
  method AppendChild<E>(c: Tree<E>, builder: string, corner: char, branch: bool, lines: Style,
                        branches: MutablePrimitiveList<bool>, nodeString: E -> string)
    returns (built: string)
    requires branches.Valid()
    modifies branches.Repr
    ensures branches.Valid() && fresh(branches.Repr - old(branches.Repr))
    ensures branches.Contents() == old(branches.Contents())
    ensures built == builder + Prefix(old(branches.Contents()), corner, lines)
                     + Subtree(c, lines, old(branches.Contents()) + [branch], nodeString)
    decreases c, 1
  {
    built := PrefixWith(builder, corner, lines, branches);
    branches.PlusAssign(branch);
    built := AppendSubtree(c, built, lines, branches, nodeString);
    var _ := branches.RemoveLast();
  }

  /**
   * `treeString`: the text of `appendSubtree` from the root, with the trailing newline deleted;
   * that is, the reference lines joined by newlines.
   */
  method TreeString<E>(t: Tree<E>, lines: Style, nodeString: E -> string) returns (s: string)
    ensures s == Join(LinesOf(t, lines, [], nodeString))
  {
    var branches := new MutablePrimitiveList<bool>();
    var built := AppendSubtree(t, "", lines, branches, nodeString);
    SubtreeIsLines(t, lines, [], nodeString);
    UnlinesIsJoin(LinesOf(t, lines, [], nodeString));
    s := built[..|built| - 1];
  }

  /**
   * The tree string has one line per node, the first of which is the root's string, and each
   * deeper line starts after a four-character column.
   */
  lemma TreeStringLines<E>(t: Tree<E>, lines: Style, nodeString: E -> string)
    ensures var ls := LinesOf(t, lines, [], nodeString);
      && |ls| == Size(t) && ls[0] == nodeString(t.element)
      && forall i :: 1 <= i < |ls| ==> |ls[i]| >= 4
  {
    LineCount(t, lines, [], nodeString);
    LinesIndented(t, lines, [], nodeString);
    var ls := LinesOf(t, lines, [], nodeString);
    forall i | 1 <= i < |ls| ensures |ls[i]| >= 4 {
      assert IndentedFrom(ls, 1, [], lines);
    }
  }

  // ------------------------------ iteration ------------------------------

  /** Post-order: each child's subtree left to right, then the node. */
  function PostOrder<E>(t: Tree<E>): seq<Tree<E>>
    decreases t
  {
    PostOrderAll(t.children) + [t]
  }

  function PostOrderAll<E>(ts: seq<Tree<E>>): seq<Tree<E>>
    decreases ts
  {
    if ts == [] then [] else PostOrder(ts[0]) + PostOrderAll(ts[1..])
  }

  /** The nodes from `t` down the first children, stopping above the first leaf. */
  function LeftSpine<E>(t: Tree<E>): seq<Tree<E>>
    decreases t
  {
    if t.children == [] then [] else [t] + LeftSpine(t.children[0])
  }

  /** The first leaf reached through first children. */
  function BottomLeft<E>(t: Tree<E>): Tree<E>
    decreases t
  {
    if t.children == [] then t else BottomLeft(t.children[0])
  }

  /**
   * What the iterator yields as written: the post-order of every node of the left spine,
   * deepest first, because the initial walk leaves every child index at 0.
   */
  function ReWalk<E>(t: Tree<E>): seq<Tree<E>>
    decreases t
  {
    if t.children == [] then [] else ReWalk(t.children[0]) + PostOrder(t)
  }

  /** The children of `cs` from index `k` on, in post-order. */
  function Remaining<E>(cs: seq<Tree<E>>, k: int): seq<Tree<E>> {
    if 0 <= k <= |cs| then PostOrderAll(cs[k..]) else []
  }

  /**
   * What an iterator with parent stack `ps` and child indices `ks` still yields: for the
   * innermost parent first, its children from its index on, then the parent itself.
   */
  function PendingFrom<E>(ps: seq<Tree<E>>, ks: seq<int>): seq<Tree<E>>
    requires |ps| == |ks|
  {
    if ps == [] then []
    else
      var m := |ps| - 1;
      Remaining(ps[m].children, ks[m]) + [ps[m]] + PendingFrom(ps[..m], ks[..m])
  }

  /** Each parent is a child of the one before it, and `cursor` a child of the last. */
  ghost predicate Path<E>(ps: seq<Tree<E>>, cursor: Tree<E>) {
    && |ps| > 0
    && (forall j :: 0 <= j < |ps| - 1 ==> ps[j + 1] in ps[j].children)
    && cursor in ps[|ps| - 1].children
  }

  lemma {:induction false} SizeAllBounds<E>(ts: seq<Tree<E>>, c: Tree<E>)
    requires c in ts
    ensures Size(c) <= SizeAll(ts)
    decreases ts
  {
    if ts[0] != c {
      SizeAllBounds(ts[1..], c);
    }
  }

  /** A node below the first of a path is smaller, so it is not the root. */
  lemma {:induction false} PathShrinks<E>(ps: seq<Tree<E>>, cursor: Tree<E>)
    requires Path(ps, cursor)
    ensures Size(cursor) < Size(ps[0])
    decreases |ps|
  {
    var m := |ps| - 1;
    SizeAllBounds(ps[m].children, cursor);
    if m > 0 {
      PathShrinks(ps[..m], ps[m]);
    }
  }

  lemma RemainingStep<E>(cs: seq<Tree<E>>, k: nat)
    requires k < |cs|
    ensures Remaining(cs, k) == PostOrder(cs[k]) + Remaining(cs, k + 1)
  {
    assert cs[k..][1..] == cs[k + 1..];
  }

  /** The innermost parent `p`, at index `k`, comes first in what is pending. */
  lemma PendingSnoc<E>(ps: seq<Tree<E>>, ks: seq<int>, p: Tree<E>, k: int)
    requires |ps| == |ks|
    ensures PendingFrom(ps + [p], ks + [k]) == Remaining(p.children, k) + [p] + PendingFrom(ps, ks)
  {
    assert (ps + [p])[..|ps|] == ps && (ks + [k])[..|ps|] == ks;
  }

  /** Regrouping a pending sequence whose tail gains `s + [y]` at the far end. */
  lemma RegroupOuter<T>(whole: seq<T>, r: seq<T>, x: T, rest: seq<T>, inner: seq<T>, s: seq<T>, y: T, part: seq<T>)
    requires whole == r + [x] + rest && rest == inner + s + [y] && part == r + [x] + inner
    ensures whole == part + s + [y]
  {
    assert r + [x] + (inner + s + [y]) == (r + [x] + inner) + s + [y];
  }

  /** Regrouping a pending sequence whose head `po` is split into `head + [x]`. */
  lemma RegroupInner<T>(head: seq<T>, x: T, po: seq<T>, later: seq<T>, y: T, q: seq<T>, pend: seq<T>, rk: seq<T>)
    requires head + [x] == po && rk == po + later && pend == later + [y] + q
    ensures head + [x] + pend == rk + [y] + q
  {
    assert po + (later + [y] + q) == (po + later) + [y] + q;
  }

  /** A non-empty sequence, with or without `x` in front, is its front part and then its last element. */
  lemma SplitLast<T>(x: T, s: seq<T>)
    requires s != []
    ensures s == s[..|s| - 1] + [s[|s| - 1]]
    ensures [x] + s == ([x] + s[..|s| - 1]) + [s[|s| - 1]]
  {
  }

  /** Adding an outermost parent appends its remaining children and itself. */
  lemma {:induction false} PendingCons<E>(p: Tree<E>, k: int, ps: seq<Tree<E>>, ks: seq<int>)
    requires |ps| == |ks|
    ensures PendingFrom([p] + ps, [k] + ks) == PendingFrom(ps, ks) + Remaining(p.children, k) + [p]
    decreases |ps|
  {
    if ps == [] {
      assert ([p] + ps)[..0] == [] && ([k] + ks)[..0] == [];
    } else {
      var m := |ps| - 1;
      PendingCons(p, k, ps[..m], ks[..m]);
      PendingConsStep(p, k, ps, ks);
    }
  }

  /** The inductive step of `PendingCons`: from all but the innermost parent to all of them. */
  lemma PendingConsStep<E>(p: Tree<E>, k: int, ps: seq<Tree<E>>, ks: seq<int>)
    requires |ps| == |ks| && ps != []
    requires var m := |ps| - 1;
      PendingFrom([p] + ps[..m], [k] + ks[..m]) == PendingFrom(ps[..m], ks[..m]) + Remaining(p.children, k) + [p]
    ensures PendingFrom([p] + ps, [k] + ks) == PendingFrom(ps, ks) + Remaining(p.children, k) + [p]
  {
    var m := |ps| - 1;
    var init, initKs := ps[..m], ks[..m];
    SplitLast(p, ps);
    SplitLast(k, ks);
    PendingSnoc([p] + init, [k] + initKs, ps[m], ks[m]);
    PendingSnoc(init, initKs, ps[m], ks[m]);
    RegroupOuter(PendingFrom([p] + ps, [k] + ks), Remaining(ps[m].children, ks[m]), ps[m],
                 PendingFrom([p] + init, [k] + initKs), PendingFrom(init, initKs),
                 Remaining(p.children, k), p, PendingFrom(ps, ks));
  }

  function Repeat(x: int, n: nat): (r: seq<int>)
    ensures |r| == n && forall i :: 0 <= i < n ==> r[i] == x
  {
    if n == 0 then [] else [x] + Repeat(x, n - 1)
  }

  lemma RepeatSnoc(x: int, n: nat)
    ensures Repeat(x, n + 1) == Repeat(x, n) + [x]
  {
  }

  /** With index 0 for every spine node, the iterator re-walks the first subtree of each. */
  lemma {:induction false} AsWrittenPending<E>(t: Tree<E>)
    ensures PendingFrom(LeftSpine(t), Repeat(0, |LeftSpine(t)|)) == ReWalk(t)
    decreases t
  {
    if t.children != [] {
      var spine := LeftSpine(t.children[0]);
      AsWrittenPending(t.children[0]);
      assert Repeat(0, |spine| + 1) == [0] + Repeat(0, |spine|);
      PendingCons(t, 0, spine, Repeat(0, |spine|));
      assert t.children[0..] == t.children;
    }
  }

  /** The corrected indices: 1 for every spine node but the deepest, which gets 0. */
  function CorrectedIndices(n: nat): (r: seq<int>)
    requires n >= 1
    ensures |r| == n
  {
    Repeat(1, n - 1) + [0]
  }

  /** With the corrected indices, what is pending is exactly the post-order. */
  lemma {:induction false} CorrectedPending<E>(t: Tree<E>)
    requires t.children != []
    ensures PendingFrom(LeftSpine(t), CorrectedIndices(|LeftSpine(t)|)) == PostOrder(t)
    decreases t
  {
    var c := t.children[0];
    assert t.children[0..] == t.children;
    if c.children == [] {
      assert LeftSpine(t) == [t];
      assert PostOrderAll(t.children) == PostOrder(c) + PostOrderAll(t.children[1..]);
    } else {
      var spine := LeftSpine(c);
      CorrectedPending(c);
      assert CorrectedIndices(|spine| + 1) == [1] + CorrectedIndices(|spine|);
      PendingCons(t, 1, spine, CorrectedIndices(|spine|));
    }
  }

  /**
   * The state of the iterator is well formed: the indices are one per parent and one for the
   * cursor, each within its node's children; the parents lead from the root down to the
   * cursor, which is the root itself when no parent is left.
   */
  ghost predicate Walkable<E>(root: Tree<E>, ps: seq<Tree<E>>, ks: seq<int>, cursor: Tree<E>) {
    && |ks| == |ps| + 1
    && (forall j :: 0 <= j < |ps| ==> 0 <= ks[j] <= |ps[j].children|)
    && 0 <= ks[|ps|] <= |cursor.children|
    && (ps == [] ==> cursor == root)
    && (ps != [] ==> ps[0] == root && Path(ps, cursor))
  }

  /** Entering child `k` of the cursor keeps the state well formed. */
  lemma WalkableDescend<E>(root: Tree<E>, ps: seq<Tree<E>>, ks: seq<int>, c: Tree<E>, k: nat, ks': seq<int>)
    requires Walkable(root, ps, ks, c) && k < |c.children|
    requires |ks'| == |ks| + 1 && ks'[..|ps|] == ks[..|ps|]
    requires 0 <= ks'[|ps|] <= |c.children| && ks'[|ps| + 1] == 0
    ensures Walkable(root, ps + [c], ks', c.children[k])
  {
    var ps' := ps + [c];
    forall j | 0 <= j < |ps'| ensures 0 <= ks'[j] <= |ps'[j].children| {
      if j < |ps| {
        assert ks'[j] == ks'[..|ps|][j] == ks[..|ps|][j] == ks[j];
      }
    }
    forall j | 0 <= j < |ps'| - 1 ensures ps'[j + 1] in ps'[j].children {
      if j < |ps| - 1 {
        assert ps'[j] == ps[j] && ps'[j + 1] == ps[j + 1];
      }
    }
  }

  /** Entering child `k` of the cursor moves the child's post-order from the cursor's part to the front. */
  lemma WalkStep<E>(ps: seq<Tree<E>>, qs: seq<int>, c: Tree<E>, k: nat)
    requires |qs| == |ps| && k < |c.children|
    ensures Remaining(c.children[k].children, 0) + [c.children[k]] + PendingFrom(ps + [c], qs + [k + 1])
      == Remaining(c.children, k) + [c] + PendingFrom(ps, qs)
  {
    var child := c.children[k];
    PendingSnoc(ps, qs, c, k + 1);
    assert child.children[0..] == child.children;
    assert Remaining(child.children, 0) + [child] == PostOrder(child);
    RemainingStep(c.children, k);
    RegroupInner(Remaining(child.children, 0), child, PostOrder(child), Remaining(c.children, k + 1),
                 c, PendingFrom(ps, qs), PendingFrom(ps + [c], qs + [k + 1]), Remaining(c.children, k));
  }

  /**
   * The index updates of one step down in `next` (TreeNodes.kt:144-145): the top index advances,
   * and 0 is pushed. Part of `WalkDown` (and through it of `PostOrderIterator.Next`) and of
   * the corrected initial walk `DescendEntering`.
   */
  method EnterChild(indices: MutablePrimitiveList<int>, k: int)
    requires indices.Valid() && indices.Contents() != [] && indices.Contents()[|indices.Contents()| - 1] == k
    modifies indices.Repr
    ensures indices.Valid() && fresh(indices.Repr - old(indices.Repr))
    ensures var ks := old(indices.Contents()); indices.Contents() == ks[..|ks| - 1] + [k + 1] + [0]
  {
    var _ := indices.SetLast(k + 1);
    indices.PlusAssign(0);
  }

  /**
   * The walk at the top of `next`: while the cursor has a child at its index, the cursor is
   * pushed, its index advanced, and the child becomes the cursor with index 0.
   */
  method WalkDown<E>(ghost root: Tree<E>, cursor: Tree<E>, parents: seq<Tree<E>>, indices: MutablePrimitiveList<int>)
    returns (c: Tree<E>, ps: seq<Tree<E>>)
    requires indices.Valid() && Walkable(root, parents, indices.Contents(), cursor)
    modifies indices.Repr
    ensures indices.Valid() && fresh(indices.Repr - old(indices.Repr))
    ensures Walkable(root, ps, indices.Contents(), c)
    ensures var ks := old(indices.Contents());
      [c] + PendingFrom(ps, indices.Contents()[..|ps|])
      == Remaining(cursor.children, ks[|parents|]) + [cursor] + PendingFrom(parents, ks[..|parents|])
  {
    ghost var goal := Remaining(cursor.children, indices.Contents()[|parents|]) + [cursor]
                      + PendingFrom(parents, indices.Contents()[..|parents|]);
    c, ps := cursor, parents;
    var last := indices.Last();
    while last.value <= |c.children| - 1
      invariant indices.Valid() && fresh(indices.Repr - old(indices.Repr))
      invariant last == indices.Last()
      invariant WalkingDown(root, ps, indices.Contents(), c, goal)
      decreases c
    {
      ghost var ks := indices.Contents();
      var k := last.value;
      EnterChild(indices, k);
      WalkDownStep(root, ps, ks, c, goal, k);
      ps := ps + [c];
      c := c.children[k];
      last := indices.Last();
    }
    assert Walkable(root, ps, indices.Contents(), c);
    WalkDownDone(c, last.value, PendingFrom(ps, indices.Contents()[..|ps|]), goal);
  }

  /** The invariant of the walk in `next`: a well-formed state that still yields `goal` from the cursor on. */
  ghost predicate WalkingDown<E>(root: Tree<E>, ps: seq<Tree<E>>, ks: seq<int>, c: Tree<E>, goal: seq<Tree<E>>) {
    && Walkable(root, ps, ks, c)
    && Remaining(c.children, ks[|ps|]) + [c] + PendingFrom(ps, ks[..|ps|]) == goal
  }

  lemma WalkDownStep<E>(root: Tree<E>, ps: seq<Tree<E>>, ks: seq<int>, c: Tree<E>, goal: seq<Tree<E>>, k: nat)
    requires WalkingDown(root, ps, ks, c, goal) && ks[|ps|] == k && k < |c.children|
    ensures WalkingDown(root, ps + [c], ks[..|ks| - 1] + [k + 1] + [0], c.children[k], goal)
  {
    var ks' := ks[..|ks| - 1] + [k + 1] + [0];
    assert ks'[..|ps| + 1] == ks[..|ps|] + [k + 1];
    assert ks'[..|ps|] == ks[..|ps|];
    WalkableDescend(root, ps, ks, c, k, ks');
    WalkStep(ps, ks[..|ps|], c, k);
  }

  /** Once the index is past the last child, nothing of the cursor's children is left. */
  lemma WalkDownDone<E>(c: Tree<E>, k: int, outer: seq<Tree<E>>, goal: seq<Tree<E>>)
    requires k >= |c.children| && Remaining(c.children, k) + [c] + outer == goal
    ensures [c] + outer == goal
  {
    if k == |c.children| {
      assert c.children[k..] == [];
    }
    assert Remaining(c.children, k) == [];
    assert [] + [c] + outer == [c] + outer;
  }

  /** `ps` is the left spine of `root` above `c`, and a path from the root down to `c`. */
  ghost predicate SpineWalk<E>(root: Tree<E>, ps: seq<Tree<E>>, c: Tree<E>) {
    && ps + LeftSpine(c) == LeftSpine(root)
    && (ps == [] ==> c == root)
    && (ps != [] ==> ps[0] == root && Path(ps, c))
  }

  /** Stepping down the first child extends the walk. */
  lemma SpineWalkStep<E>(root: Tree<E>, ps: seq<Tree<E>>, c: Tree<E>)
    requires SpineWalk(root, ps, c) && c.children != []
    ensures SpineWalk(root, ps + [c], c.children[0])
  {
    var ps' := ps + [c];
    assert (ps + [c]) + LeftSpine(c.children[0]) == ps + LeftSpine(c);
    forall j | 0 <= j < |ps'| - 1 ensures ps'[j + 1] in ps'[j].children {
      if j < |ps| - 1 {
        assert ps'[j] == ps[j] && ps'[j + 1] == ps[j + 1];
      }
    }
  }

  /** Along the walk, indices of 0 or 1 and 0 for the cursor make a well-formed state. */
  lemma SpineWalkable<E>(root: Tree<E>, ps: seq<Tree<E>>, c: Tree<E>, ks: seq<int>)
    requires SpineWalk(root, ps, c)
    requires |ks| == |ps| + 1 && ks[|ps|] == 0
    requires forall j :: 0 <= j < |ks| ==> 0 <= ks[j] <= 1
    ensures Walkable(root, ps, ks, c)
  {
    forall j | 0 <= j < |ps| ensures 0 <= ks[j] <= |ps[j].children| {
      if j < |ps| - 1 {
        assert ps[j + 1] in ps[j].children;
      } else {
        assert c in ps[j].children;
      }
    }
  }

  /** The initial walk as written: down the first children, pushing index 0 for every node. */
  method DescendAsWritten<E>(root: Tree<E>) returns (c: Tree<E>, ps: seq<Tree<E>>, indices: MutablePrimitiveList<int>)
    ensures fresh(indices) && fresh(indices.Repr) && indices.Valid()
    ensures Walkable(root, ps, indices.Contents(), c)
    ensures ps == LeftSpine(root) && indices.Contents() == Repeat(0, |ps|) + [0]
  {
    c, ps := root, [];
    indices := new MutablePrimitiveList<int>();
    indices.PlusAssign(0);
    while c.children != []
      invariant indices.Valid() && fresh(indices.Repr)
      invariant Descending(root, ps, c, indices.Contents(), 0)
      decreases c
    {
      ghost var ks := indices.Contents();
      indices.PlusAssign(0);
      DescendingStep(root, ps, c, ks, 0, indices.Contents());
      ps := ps + [c];
      c := c.children[0];
    }
    SpineWalkable(root, ps, c, indices.Contents());
  }

  /** The invariant of both initial walks: `ps` is the spine above `c`, each passed node with index `passed`. */
  ghost predicate Descending<E>(root: Tree<E>, ps: seq<Tree<E>>, c: Tree<E>, ks: seq<int>, passed: int) {
    SpineWalk(root, ps, c) && ks == Repeat(passed, |ps|) + [0]
  }

  /** One step down the first child, the index left behind becoming `passed`. */
  lemma DescendingStep<E>(root: Tree<E>, ps: seq<Tree<E>>, c: Tree<E>, ks: seq<int>, passed: int, ks': seq<int>)
    requires Descending(root, ps, c, ks, passed) && c.children != []
    requires ks' == ks[..|ks| - 1] + [passed] + [0]
    ensures Descending(root, ps + [c], c.children[0], ks', passed)
  {
    SpineWalkStep(root, ps, c);
    assert ks[..|ks| - 1] == Repeat(passed, |ps|);
    RepeatSnoc(passed, |ps|);
  }

  /**
   * The initial walk corrected: every node passed gets index 1, since its first child is
   * being entered, except the deepest, which keeps 0 so that the first `next` enters the
   * bottom-left node itself.
   */
  method DescendCorrected<E>(root: Tree<E>) returns (c: Tree<E>, ps: seq<Tree<E>>, indices: MutablePrimitiveList<int>)
    ensures fresh(indices) && fresh(indices.Repr) && indices.Valid()
    ensures Walkable(root, ps, indices.Contents(), c)
    ensures ps == LeftSpine(root)
    ensures ps != [] ==> indices.Contents()[..|ps|] == CorrectedIndices(|ps|)
  {
    c, ps, indices := DescendEntering(root);
    if ps != [] {
      LowerDeepest(indices, |ps|);
      assert indices.Contents()[..|ps|] == CorrectedIndices(|ps|);
    }
    SpineWalkable(root, ps, c, indices.Contents());
  }

  /** The loop of the corrected walk: each node passed gets index 1 as its first child is entered. */
  method DescendEntering<E>(root: Tree<E>) returns (c: Tree<E>, ps: seq<Tree<E>>, indices: MutablePrimitiveList<int>)
    ensures fresh(indices) && fresh(indices.Repr) && indices.Valid()
    ensures SpineWalk(root, ps, c) && c.children == []
    ensures indices.Contents() == Repeat(1, |ps|) + [0]
  {
    c, ps := root, [];
    indices := new MutablePrimitiveList<int>();
    indices.PlusAssign(0);
    while c.children != []
      invariant indices.Valid() && fresh(indices.Repr)
      invariant Descending(root, ps, c, indices.Contents(), 1)
      decreases c
    {
      ghost var ks := indices.Contents();
      EnterChild(indices, 0);
      DescendingStep(root, ps, c, ks, 1, indices.Contents());
      ps := ps + [c];
      c := c.children[0];
    }
  }

  /** The fix-up after the corrected walk: the deepest parent's index goes back to 0. */
  method LowerDeepest(indices: MutablePrimitiveList<int>, n: nat)
    requires indices.Valid() && n >= 1 && indices.Contents() == Repeat(1, n) + [0]
    modifies indices.Repr
    ensures indices.Valid() && fresh(indices.Repr - old(indices.Repr))
    ensures indices.Contents() == CorrectedIndices(n) + [0]
  {
    var _ := indices.RemoveLast();
    assert (Repeat(1, n) + [0])[..n] == Repeat(1, n);
    var _ := indices.SetLast(0);
    RepeatSnoc(1, n - 1);
    assert Repeat(1, n)[..n - 1] == Repeat(1, n - 1);
    indices.PlusAssign(0);
  }

  /** Popping the innermost parent back into the cursor keeps the state well formed. */
  lemma WalkablePop<E>(root: Tree<E>, ps: seq<Tree<E>>, ks: seq<int>, c: Tree<E>)
    requires Walkable(root, ps, ks, c) && ps != []
    ensures var m := |ps| - 1; Walkable(root, ps[..m], ks[..m + 1], ps[m])
  {
    var m := |ps| - 1;
    var rest, ks' := ps[..m], ks[..m + 1];
    forall j | 0 <= j < m ensures 0 <= ks'[j] <= |rest[j].children| {
      assert ks'[j] == ks[j] && rest[j] == ps[j];
    }
    if m > 0 {
      forall j | 0 <= j < m - 1 ensures rest[j + 1] in rest[j].children {
        assert rest[j] == ps[j] && rest[j + 1] == ps[j + 1];
      }
      assert ps[m] in ps[m - 1].children;
    }
  }

  /** After popping and walking down, the node reached is the first pending one, and the rest stay pending. */
  lemma NextPending<E>(ps: seq<Tree<E>>, ks: seq<int>, c: Tree<E>, rest: seq<Tree<E>>)
    requires |ks| == |ps| && ps != []
    requires var m := |ps| - 1;
      [c] + rest == Remaining(ps[m].children, ks[m]) + [ps[m]] + PendingFrom(ps[..m], ks[..m])
    ensures var p := PendingFrom(ps, ks); p != [] && p[0] == c && p[1..] == rest
  {
    assert ([c] + rest)[0] == c && ([c] + rest)[1..] == rest;
  }

  /**
   * The iterator of `TreeNode`: a cursor, the stack of its ancestors and a stack of child
   * indices, one per ancestor plus one for the cursor.
   */
  class PostOrderIterator<E(==)> {
    const root: Tree<E>
    var cursor: Tree<E>
    var parentStack: seq<Tree<E>>
    const childIndices: MutablePrimitiveList<int>
    ghost var Repr: set<object>

    ghost predicate Valid()
      reads this, Repr
    {
      && this in Repr && childIndices in Repr && childIndices.Repr <= Repr && this !in childIndices.Repr
      && childIndices.Valid()
      && Walkable(root, parentStack, childIndices.Contents(), cursor)
    }

    /** The nodes still to be yielded. */
    ghost function Pending(): seq<Tree<E>>
      reads this, Repr
      requires Valid()
    {
      PendingFrom(parentStack, childIndices.Contents()[..|parentStack|])
    }

    /** The iterator as written: it yields `ReWalk(root)`. */
    constructor AsWritten(root: Tree<E>)
      ensures Valid() && fresh(Repr) && this.root == root
      ensures Pending() == ReWalk(root)
    {
      var c, ps, indices := DescendAsWritten(root);
      this.root := root;
      cursor := c;
      parentStack := ps;
      childIndices := indices;
      Repr := {this} + indices.Repr;
      new;
      assert indices.Contents()[..|ps|] == Repeat(0, |ps|);
      AsWrittenPending(root);
    }

    /** The iterator with the initial walk corrected: it yields the post-order. */
    constructor (root: Tree<E>)
      ensures Valid() && fresh(Repr) && this.root == root
      ensures Pending() == if root.children == [] then [] else PostOrder(root)
    {
      var c, ps, indices := DescendCorrected(root);
      this.root := root;
      cursor := c;
      parentStack := ps;
      childIndices := indices;
      Repr := {this} + indices.Repr;
      new;
      if root.children != [] {
        CorrectedPending(root);
      }
    }

    /** `hasNext`: the cursor is not back at the root, exactly when something is pending. */
    function HasNext(): (r: bool)
      reads this, Repr
      requires Valid()
      ensures r <==> Pending() != []
    {
      if parentStack != [] then PathShrinks(parentStack, cursor); cursor != root
      else cursor != root
    }

    /**
     * `next`: pops the parent into the cursor, then walks down from its next child to that
     * child's bottom-left node, which it returns. With no parent left it fails with
     * NoSuchElement.
     */
    method Next() returns (r: Result<Tree<E>>)
      requires Valid()
      modifies Repr
      ensures Valid() && fresh(Repr - old(Repr))
      ensures old(Pending()) == [] ==> r == Err(NoSuchElement) && Pending() == []
      ensures old(Pending()) != [] ==> r == Ok(old(Pending())[0]) && Pending() == old(Pending())[1..]
    {
      if parentStack == [] {
        return Err(NoSuchElement);
      }
      ghost var ks := childIndices.Contents();
      var m := |parentStack| - 1;
      var popped, rest := parentStack[m], parentStack[..m];
      WalkablePop(root, parentStack, ks, cursor);
      var _ := childIndices.RemoveLast();
      ghost var popped_ks := childIndices.Contents();
      assert popped_ks == ks[..|parentStack|];
      var c, ps := WalkDown(root, popped, rest, childIndices);
      NextPending(parentStack, popped_ks, c, PendingFrom(ps, childIndices.Contents()[..|ps|]));
      Settle(c, ps);
      r := Ok(c);
    }

    /** Makes `c` the cursor and `ps` its parents, once the indices have been updated for them. */
    method Settle(c: Tree<E>, ps: seq<Tree<E>>)
      requires this in Repr && childIndices in Repr && this !in childIndices.Repr && childIndices.Valid()
      requires Walkable(root, ps, childIndices.Contents(), c)
      modifies this
      ensures Valid() && Repr == old(Repr) + childIndices.Repr
      ensures cursor == c && parentStack == ps
    {
      cursor, parentStack := c, ps;
      Repr := Repr + childIndices.Repr;
    }
  }

  /** Taking `next` while `hasNext` holds yields exactly what was pending, in order. */
  method Drain<E(==)>(it: PostOrderIterator<E>) returns (yielded: seq<Tree<E>>)
    requires it.Valid()
    modifies it.Repr
    ensures it.Valid() && !it.HasNext()
    ensures yielded == old(it.Pending())
  {
    ghost var all := it.Pending();
    yielded := [];
    while it.HasNext()
      invariant it.Valid() && fresh(it.Repr - old(it.Repr))
      invariant yielded + it.Pending() == all
      decreases |it.Pending()|
    {
      ghost var before := it.Pending();
      var r := it.Next();
      TakeFirst(yielded, before, it.Pending(), all);
      yielded := yielded + [r.value];
    }
  }

  /** Moving the first pending node to the yielded ones keeps their concatenation. */
  lemma TakeFirst<T>(yielded: seq<T>, before: seq<T>, after: seq<T>, all: seq<T>)
    requires yielded + before == all && before != [] && after == before[1..]
    ensures yielded + [before[0]] + after == all
  {
    assert before == [before[0]] + after;
    assert yielded + ([before[0]] + after) == yielded + [before[0]] + after;
  }

  /** Iterating a tree as written: the left spine's subtrees are walked again. */
  method IterateAsWritten<E(==)>(root: Tree<E>) returns (yielded: seq<Tree<E>>)
    ensures yielded == ReWalk(root)
  {
    var it := new PostOrderIterator.AsWritten(root);
    yielded := Drain(it);
  }

  /** Iterating a tree with the corrected initial walk: its post-order, or nothing for a leaf. */
  method Iterate<E(==)>(root: Tree<E>) returns (yielded: seq<Tree<E>>)
    ensures root.children != [] ==> yielded == PostOrder(root)
    ensures root.children == [] ==> yielded == []
  {
    var it := new PostOrderIterator(root);
    yielded := Drain(it);
  }

  // ------------------------------ post-order facts ------------------------------

  lemma {:induction false} PostOrderLength<E>(t: Tree<E>)
    ensures |PostOrder(t)| == Size(t)
    decreases t, 1
  {
    PostOrderAllLength(t.children);
  }

  lemma {:induction false} PostOrderAllLength<E>(ts: seq<Tree<E>>)
    ensures |PostOrderAll(ts)| == SizeAll(ts)
    decreases ts, 0
  {
    if ts != [] {
      PostOrderLength(ts[0]);
      PostOrderAllLength(ts[1..]);
    }
  }

  /** The post-order starts at the bottom-left node and ends at the root, visiting every node once by count. */
  lemma {:induction false} PostOrderEnds<E>(t: Tree<E>)
    ensures var p := PostOrder(t); |p| == Size(t) && p[0] == BottomLeft(t) && p[|p| - 1] == t
    decreases t
  {
    PostOrderLength(t);
    if t.children != [] {
      var c := t.children[0];
      PostOrderEnds(c);
      assert PostOrderAll(t.children) == PostOrder(c) + PostOrderAll(t.children[1..]);
    }
  }

  /** When the first child is a leaf, the as-written iterator does yield the post-order. */
  lemma AsWrittenCorrectWhenShallow<E>(t: Tree<E>)
    requires t.children != [] && t.children[0].children == []
    ensures ReWalk(t) == PostOrder(t)
  {
  }

  /**
   * When the first child has children of its own, the as-written iterator yields more nodes
   * than the tree has, so some node comes out twice.
   */
  lemma {:induction false} AsWrittenRepeats<E>(t: Tree<E>)
    requires t.children != [] && t.children[0].children != []
    ensures |ReWalk(t)| > Size(t)
  {
    var c := t.children[0];
    PostOrderLength(t);
    assert ReWalk(c) == ReWalk(c.children[0]) + PostOrder(c);
  }

  /** The smallest tree that shows it: a root, its child and its grandchild. */
  lemma ChainCounterexample()
    ensures var b := Tree(2, []); var a := Tree(1, [b]); var r := Tree(0, [a]);
      && ReWalk(r) == [b, a, b, a, r]
      && PostOrder(r) == [b, a, r]
  {
    var b := Tree(2, []);
    var a := Tree(1, [b]);
    var r := Tree(0, [a]);
    assert PostOrder(b) == [b];
    assert PostOrderAll([b]) == [b];
    assert PostOrder(a) == [b, a];
    assert PostOrderAll([a]) == [b, a];
    assert ReWalk(b) == [];
    assert ReWalk(a) == [b, a];
    assert PostOrder(r) == [b, a, r];
  }

  // ------------------------------ the test tree ------------------------------

  /**
   * `Int.toString`: the decimal digits, with a leading minus sign for a negative number. The
   * `nodeString` the test tree is rendered with in `TestTreeString`.
   */
  function Decimal(n: int): (s: string)
    ensures 0 <= n < 10 ==> s == [('0' as int + n) as char]
    decreases if n < 0 then 1 - n else n
  {
    if n < 0 then "-" + Decimal(-n)
    else if n < 10 then [('0' as int + n) as char]
    else Decimal(n / 10) + Decimal(n % 10)
  }

  /** The tree of the tests: 4 with children 0, 2 (holding 1) and 3. */
  const TestShape: Tree<int> := Tree(4, [Tree(0, []), Tree(2, [Tree(1, [])]), Tree(3, [])])

  /** The tests' tree, built with `treeNodeOf`, `+=` on values and nodes, and `+`. */
  method BuildTestTree() returns (tree: DataTreeNode<int>)
    ensures tree.Valid() && tree.Shape() == TestShape
  {
    tree := new DataTreeNode(4);
    tree.PlusAssign(0);
    assert tree.Shape() == Tree(4, [Tree(0, [])]);
    var two := new DataTreeNode(2);
    var twoAndOne := two.Plus(1);
    assert twoAndOne.Shape() == Tree(2, [Tree(1, [])]);
    assert tree.Shape() == Tree(4, [Tree(0, [])]);
    tree.PlusAssignNode(twoAndOne);
    assert tree.Shape() == Tree(4, [Tree(0, []), Tree(2, [Tree(1, [])])]);
    tree.PlusAssign(3);
  }

  lemma TestOrder()
    ensures ReWalk(TestShape) == [Tree(0, []), Tree(1, []), Tree(2, [Tree(1, [])]), Tree(3, []), TestShape]
  {
    var one, three := Tree(1, []), Tree(3, []);
    var two := Tree(2, [one]);
    assert PostOrderAll([one]) == [one];
    assert PostOrderAll([three]) == [three];
    assert PostOrderAll([two, three]) == [one, two, three];
  }

  /** `correct_iteration_order`: the n-th node yielded holds n. */
  method TestIterationOrder() returns (elements: seq<int>)
    ensures elements == [0, 1, 2, 3, 4]
  {
    var tree := BuildTestTree();
    var shape := tree.Shape();
    var yielded := IterateAsWritten(shape);
    TestOrder();
    elements := [];
    for i := 0 to |yielded|
      invariant |elements| == i && forall j :: 0 <= j < i ==> elements[j] == yielded[j].element
    {
      elements := elements + [yielded[i].element];
    }
  }

  /** The subtree of 2, as the middle child of the root. */
  lemma TestMiddleLines()
    ensures LinesOf(Tree(2, [Tree(1, [])]), Utf8, [] + [true], Decimal) == ["2", "│   └── 1"]
  {
    var one := Tree(1, []);
    DigitStrings();
    assert [true][..0] == [];
    assert Prefix([true], Utf8.corner, Utf8) == "│   └── ";
    assert [one][1..] == [];
    var l1 := LinesOf(one, Utf8, [true] + [false], Decimal);
    assert l1 == ["1"] && l1[1..] == [] && l1[0] == "1";
    assert Prefix([true], Utf8.corner, Utf8) + l1[0] == "│   └── 1";
    assert ChildLines([one], Utf8, [true], Decimal) == ["│   └── 1"];
  }

  /** The last child of the root: a corner and no branch below it. */
  lemma TestLastChildLines()
    ensures ChildLines([Tree(3, [])], Utf8, [], Decimal) == ["└── 3"]
  {
    var three := Tree(3, []);
    LeafLines(3, [false]);
    assert [three][1..] == [];
    var l3 := LinesOf(three, Utf8, [] + [false], Decimal);
    assert l3[1..] == [] && l3[0] == "3";
    CornerPrefix();
    assert Prefix([], Utf8.corner, Utf8) + l3[0] == "└── 3";
  }

  /** A leaf holding a digit is one line, that digit. */
  lemma LeafLines(d: int, branches: seq<bool>)
    requires 0 <= d < 10
    ensures LinesOf(Tree(d, []), Utf8, branches, Decimal) == [[('0' as int + d) as char]]
  {
    assert ChildLines([], Utf8, branches, Decimal) == [];
  }

  /** The prefixes of the root's children. */
  lemma CornerPrefix()
    ensures Prefix([], Utf8.corner, Utf8) == "└── " && Prefix([], Utf8.turnstile, Utf8) == "├── "
  {
  }

  /** The last two children of the root, the first of them with its own child. */
  lemma TestLaterChildLines()
    ensures ChildLines([Tree(2, [Tree(1, [])]), Tree(3, [])], Utf8, [], Decimal) == ["├── 2", "│   └── 1", "└── 3"]
  {
    var two, three := Tree(2, [Tree(1, [])]), Tree(3, []);
    DigitStrings();
    TestMiddleLines();
    TestLastChildLines();
    assert Prefix([], Utf8.turnstile, Utf8) == "├── ";
    assert [two, three][1..] == [three];
    var l2 := LinesOf(two, Utf8, [] + [true], Decimal);
    assert l2[1..] == ["│   └── 1"] && l2[0] == "2";
    assert Prefix([], Utf8.turnstile, Utf8) + l2[0] == "├── 2";
  }

  /** The children of the root. */
  lemma TestChildLines()
    ensures ChildLines(TestShape.children, Utf8, [], Decimal) == ["├── 0", "├── 2", "│   └── 1", "└── 3"]
  {
    var zero, three := Tree(0, []), Tree(3, []);
    var two := Tree(2, [Tree(1, [])]);
    DigitStrings();
    TestLaterChildLines();
    assert Prefix([], Utf8.turnstile, Utf8) == "├── ";
    assert [zero, two, three][1..] == [two, three];
    var l0 := LinesOf(zero, Utf8, [] + [true], Decimal);
    assert l0 == ["0"] && l0[1..] == [] && l0[0] == "0";
    assert Prefix([], Utf8.turnstile, Utf8) + l0[0] == "├── 0";
  }

  lemma TestLines()
    ensures LinesOf(TestShape, Utf8, [], Decimal) == ["4", "├── 0", "├── 2", "│   └── 1", "└── 3"]
  {
    DigitStrings();
    TestChildLines();
  }

  lemma DigitStrings()
    ensures Decimal(0) == "0" && Decimal(1) == "1" && Decimal(2) == "2" && Decimal(3) == "3" && Decimal(4) == "4"
  {
  }

  /** `correct_tree_string`. */
  method TestTreeString() returns (s: string)
    ensures s == "4\n├── 0\n├── 2\n│   └── 1\n└── 3"
  {
    var tree := BuildTestTree();
    var shape := tree.Shape();
    s := TreeString(shape, Utf8, Decimal);
    TestLines();
    TestJoin();
  }

  lemma JoinCons(line: string, ls: seq<string>)
    requires |ls| >= 1
    ensures Join([line] + ls) == line + "\n" + Join(ls)
  {
    assert ([line] + ls)[1..] == ls;
  }

  lemma TestJoin()
    ensures Join(["4", "├── 0", "├── 2", "│   └── 1", "└── 3"]) == "4\n├── 0\n├── 2\n│   └── 1\n└── 3"
  {
    var l4 := ["└── 3"];
    assert Join(l4) == "└── 3";
    var l3 := ["│   └── 1"] + l4;
    var l2 := ["├── 2"] + l3;
    var l1 := ["├── 0"] + l2;
    JoinCons("│   └── 1", l4);
    JoinCons("├── 2", l3);
    JoinCons("├── 0", l2);
    JoinCons("4", l1);
    assert ["4"] + l1 == ["4", "├── 0", "├── 2", "│   └── 1", "└── 3"];
  }
}
