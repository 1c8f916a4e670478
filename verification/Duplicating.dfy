/** cJSON trees on the heap, and the deep copy. */
module Duplicating {
  import opened JsonModel

  /** What a node holds besides its name, its links and its children. */
  datatype Content = Scalar(value: Json) | ArrayOf | ObjectOf

  class TreeNode {
    const content: Content
    const name: string
    var next: TreeNode?
    var prev: TreeNode?
    var child: TreeNode?
    /** The children in order, and all nodes of the tree. */
    ghost var kids: seq<TreeNode>
    ghost var repr: set<TreeNode>

    constructor (content: Content, name: string)
      ensures this.content == content && this.name == name && next == null && prev == null && child == null
      ensures kids == [] && repr == {this}
    {
      this.content, this.name, next, prev, child, kids, repr := content, name, null, null, null, [], {this};
    }
  }

  /**
   * The root of the tree `j`, apart from its own links. With `back`, prev links are asked for, too: a copy has them,
   * but a tree whose objects have been sorted in place need not.
   */
  ghost predicate Tree(p: TreeNode, j: Json, back: bool)
    reads p, p.repr
    decreases j, 1
  {
    p in p.repr && Inside(p.content, p.child, p.kids, p.repr - {p}, j, back)
  }

  /** What hangs below the root, all of it in `region`. */
  ghost predicate Inside(content: Content, child: TreeNode?, kids: seq<TreeNode>, region: set<TreeNode>, j: Json, back: bool)
    reads region
    decreases j, 0
  {
    match j
    case Array(ns) => content == ArrayOf && Below(child, kids, region, ns, back)
    case Object(ns) => content == ObjectOf && Below(child, kids, region, ns, back)
    case _ => content == Scalar(j) && child == null && kids == []
  }

  ghost predicate Below(child: TreeNode?, kids: seq<TreeNode>, region: set<TreeNode>, ns: Nodes, back: bool)
    reads region
    decreases ns, 1
  {
    child == Head(kids) && |kids| == Length(ns) && AllIn(kids, region) && Row(kids, ns, region, back)
  }

  predicate AllIn(kids: seq<TreeNode>, region: set<TreeNode>) {
    forall i :: 0 <= i < |kids| ==> kids[i] in region
  }

  function Head(s: seq<TreeNode>): TreeNode? { if s == [] then null else s[0] }

  /** Nodes for the first members of a chain: names, trees that share nothing, and links. */
  ghost predicate Row(kids: seq<TreeNode>, ns: Nodes, region: set<TreeNode>, back: bool)
    requires AllIn(kids, region)
    reads region
    decreases ns, 0
  {
    && |kids| <= Length(ns)
    && (forall i :: 0 <= i < |kids| ==> kids[i].repr <= region)
    && (forall i :: 0 <= i < |kids| ==> kids[i].name == KeyAt(ns, i) && Tree(kids[i], Nth(ns, i), back))
    && (forall i, k :: 0 <= i < k < |kids| ==> kids[i].repr !! kids[k].repr)
    && Links(kids, back)
  }

  ghost predicate Links(kids: seq<TreeNode>, back: bool)
    reads kids
  {
    && (forall i :: 0 <= i < |kids| ==> kids[i].next == if i + 1 < |kids| then kids[i + 1] else null)
    && (back ==> forall i :: 0 <= i < |kids| ==> kids[i].prev == if i > 0 then kids[i - 1] else null)
  }

  /** Links one more node behind the last one; the trees below the two nodes do not depend on that. */
  method Hang(tail: TreeNode?, c: TreeNode, ghost kids: seq<TreeNode>, ghost t: Json, ghost j: Json)
    requires tail == (if kids == [] then null else kids[|kids| - 1])
    requires Links(kids, true) && (forall i, k :: 0 <= i < k < |kids| ==> kids[i] != kids[k]) && c !in kids
    requires Tree(c, j, true) && c.next == null && c.prev == null
    requires tail != null ==> Tree(tail, t, true) && tail.repr !! c.repr
    modifies c`prev, (if tail == null then {} else {tail})`next
    ensures Links(kids + [c], true) && Tree(c, j, true) && (tail != null ==> Tree(tail, t, true))
  {
    assert Inside(c.content, c.child, c.kids, c.repr - {c}, j, true);
    if tail != null {
      assert Inside(tail.content, tail.child, tail.kids, tail.repr - {tail}, t, true);
      assert forall i :: 0 <= i < |kids| ==> kids[i] in kids;
      tail.next := c;
      c.prev := tail;
      assert Inside(tail.content, tail.child, tail.kids, tail.repr - {tail}, t, true);
    }
    assert Inside(c.content, c.child, c.kids, c.repr - {c}, j, true);
  }

  lemma RootsApart(kids: seq<TreeNode>, ns: Nodes, region: set<TreeNode>)
    requires AllIn(kids, region) && Row(kids, ns, region, true)
    ensures forall i, k :: 0 <= i < k < |kids| ==> kids[i] != kids[k]
  {
    forall i, k | 0 <= i < k < |kids| ensures kids[i] != kids[k] {
      assert kids[i] in kids[i].repr && kids[k] in kids[k].repr;
    }
  }

  method HangRow(tail: TreeNode?, c: TreeNode, ghost kids: seq<TreeNode>, ghost ns: Nodes, ghost region: set<TreeNode>)
    requires AllIn(kids, region) && Row(kids, ns, region, true) && |kids| < Length(ns)
    requires tail == (if kids == [] then null else kids[|kids| - 1])
    requires Tree(c, Nth(ns, |kids|), true) && c.name == KeyAt(ns, |kids|) && c.next == null && c.prev == null && c.repr !! region
    modifies c`prev, (if tail == null then {} else {tail})`next
    ensures AllIn(kids + [c], region + c.repr) && Row(kids + [c], ns, region + c.repr, true)
  {
    hide Tree;
    ghost var n := |kids|;
    RootsApart(kids, ns, region);
    RootIn(c, Nth(ns, n), true);
    Hang(tail, c, kids, if n == 0 then Null else Nth(ns, n - 1), Nth(ns, n));
    ghost var more := kids + [c];
    forall i | 0 <= i < |more| ensures Tree(more[i], Nth(ns, i), true) {
    }
  }

  lemma RootIn(p: TreeNode, j: Json, back: bool)
    requires Tree(p, j, back)
    ensures p in p.repr
  {
  }

  /** What is known of one child. */
  lemma KidAt(p: TreeNode, j: Json, i: nat, back: bool)
    requires Tree(p, j, back) && (j.Array? || j.Object?) && i < Length(j.child)
    ensures |p.kids| == Length(j.child) && p.kids[i] in p.repr && p.child == p.kids[0]
    ensures Tree(p.kids[i], Nth(j.child, i), back) && p.kids[i].name == KeyAt(j.child, i)
    ensures p.kids[i].next == if i + 1 < |p.kids| then p.kids[i + 1] else null
  {
    assert Inside(p.content, p.child, p.kids, p.repr - {p}, j, back);
    assert Below(p.child, p.kids, p.repr - {p}, j.child, back);
    assert Row(p.kids, j.child, p.repr - {p}, back);
  }

  lemma NoKids(p: TreeNode, j: Json, back: bool)
    requires Tree(p, j, back)
    ensures p in p.repr
    ensures j.Array? || j.Object? ==> |p.kids| == Length(j.child) && p.child == Head(p.kids)
    ensures !(j.Array? || j.Object?) ==> p.child == null
  {
    assert Inside(p.content, p.child, p.kids, p.repr - {p}, j, back);
    if j.Array? || j.Object? { assert Below(p.child, p.kids, p.repr - {p}, j.child, back); }
  }

  lemma Complete(p: TreeNode, j: Json, content: Content, ns: Nodes)
    requires p in p.repr && p.content == content && AllIn(p.kids, p.repr - {p}) && Row(p.kids, ns, p.repr - {p}, true)
    requires |p.kids| == Length(ns) && p.child == Head(p.kids)
    requires match j
      case Array(s) => content == ArrayOf && ns == s
      case Object(s) => content == ObjectOf && ns == s
      case _ => content == Scalar(j) && ns == End
    ensures Tree(p, j, true)
  {
    assert Inside(p.content, p.child, p.kids, p.repr - {p}, j, true);
  }

  /** Attaches one more child to a copy that is being built. */
  method Attach(p: TreeNode, tail: TreeNode?, c: TreeNode, ghost ns: Nodes)
    requires p in p.repr && AllIn(p.kids, p.repr - {p}) && Row(p.kids, ns, p.repr - {p}, true) && |p.kids| < Length(ns)
    requires p.child == Head(p.kids) && tail == (if p.kids == [] then null else p.kids[|p.kids| - 1])
    requires Tree(c, Nth(ns, |p.kids|), true) && c.name == KeyAt(ns, |p.kids|) && c.next == null && c.prev == null
    requires c.repr !! p.repr
    modifies p`child, p`kids, p`repr, c`prev, (if tail == null then {} else {tail})`next
    ensures p.kids == old(p.kids) + [c] && p.repr == old(p.repr) + old(c.repr) && p.child == Head(p.kids)
    ensures p in p.repr && AllIn(p.kids, p.repr - {p}) && Row(p.kids, ns, p.repr - {p}, true)
  {
    hide Tree, Row;
    ghost var region := p.repr - {p};
    ghost var kids := p.kids;
    HangRow(tail, c, kids, ns, region);
    if tail == null { p.child := c; }
    ghost var more := c.repr;
    p.kids := p.kids + [c];
    p.repr := p.repr + more;
    assert p.repr - {p} == region + more;
  }

  /**
   * cJSON_Duplicate with all descendants: a new tree that shares no node with the old one, which stays as it is.
   * Only next links of the source count; those of the copy are right in both directions.
   */
  method Duplicate(item: TreeNode, ghost j: Json) returns (copy: TreeNode)
    requires Tree(item, j, false)
    ensures fresh(copy.repr) && Tree(copy, j, true)
    ensures copy.name == item.name && copy.next == null && copy.prev == null
    decreases j
  {
    hide Tree, Row, Below, Inside, Links;
    NoKids(item, j, false);
    copy := new TreeNode(item.content, item.name);
    NewRow(copy, if j.Array? || j.Object? then j.child else End);
    ghost var ns := if j.Array? || j.Object? then j.child else End;
    var child, tail: TreeNode? := item.child, null;
    ghost var i := 0;
    while child != null
      invariant unchanged(item) && unchanged(item.repr)
      invariant 0 <= i <= Length(ns) && child == (if i < Length(ns) then item.kids[i] else null)
      invariant fresh(copy.repr) && copy.content == item.content && copy.name == item.name
      invariant copy.next == null && copy.prev == null
      invariant copy in copy.repr && AllIn(copy.kids, copy.repr - {copy}) && Row(copy.kids, ns, copy.repr - {copy}, true)
      invariant |copy.kids| == i && copy.child == Head(copy.kids)
      invariant tail != null ==> fresh(tail)
      invariant tail == if copy.kids == [] then null else copy.kids[|copy.kids| - 1]
      decreases Length(ns) - i
    {
      KidAt(item, j, i, false);
      var newchild := Duplicate(child, Nth(ns, i));
      RootIn(newchild, Nth(ns, i), true);
      Attach(copy, tail, newchild, ns);
      tail, child, i := newchild, child.next, i + 1;
    }
    ContentOf(item, j, false);
    Complete(copy, j, item.content, ns);
  }

  lemma NewRow(p: TreeNode, ns: Nodes)
    requires p.kids == []
    ensures Row([], ns, p.repr - {p}, true)
  {
  }

  lemma ContentOf(p: TreeNode, j: Json, back: bool)
    requires Tree(p, j, back)
    ensures match j
      case Array(_) => p.content == ArrayOf
      case Object(_) => p.content == ObjectOf
      case _ => p.content == Scalar(j)
  {
  }
}
