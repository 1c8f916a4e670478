/**
 * Trees with the links that sorting leaves behind: an object sorted in place keeps a prev link at its first member if
 * another member was first before. Taking that member out writes through the link, and the list is one no more
 * (SiblingLists.Unlink).
 */
module Linking {
  import opened Basics
  import opened CStrings
  import opened JsonModel
  import opened Sorting
  import opened Comparing

  /** For a node: whether its first child has such a link, and the same for its children. */
  datatype Links = Links(stale: bool, kids: seq<Links>)

  datatype Tree = Tree(doc: Json, links: Links)

  predicate Fits(j: Json, l: Links) {
    && (l.stale ==> j.Object? && j.child.Node?)
    && match j
       case Array(ns) => KidsFit(ns, l.kids)
       case Object(ns) => KidsFit(ns, l.kids)
       case _ => l.kids == []
  }

  predicate KidsFit(ns: Nodes, ls: seq<Links>) {
    if ns.End? then ls == [] else ls != [] && Fits(ns.value, ls[0]) && KidsFit(ns.next, ls[1..])
  }

  predicate Sound(t: Tree) { Fits(t.doc, t.links) }

  // ---------- clean links ----------

  function CleanLinks(j: Json): (l: Links)
    ensures Fits(j, l) && Clean(l)
  {
    match j
    case Array(ns) => Links(false, CleanKids(ns))
    case Object(ns) => Links(false, CleanKids(ns))
    case _ => Links(false, [])
  }

  function CleanKids(ns: Nodes): (ls: seq<Links>)
    ensures KidsFit(ns, ls) && forall l :: l in ls ==> Clean(l)
  {
    if ns.End? then [] else [CleanLinks(ns.value)] + CleanKids(ns.next)
  }

  predicate Clean(l: Links) {
    !l.stale && forall k :: k in l.kids ==> Clean(k)
  }

  /** A tree fresh from the parser, from a copy, or from anything else that has not been sorted in place. */
  function Fresh(j: Json): (t: Tree)
    ensures Sound(t) && Clean(t.links)
  {
    Tree(j, CleanLinks(j))
  }

  // ---------- children ----------

  lemma {:induction false} KidFits(ns: Nodes, ls: seq<Links>, i: nat)
    requires KidsFit(ns, ls) && i < Length(ns)
    ensures |ls| == Length(ns) && Fits(Nth(ns, i), ls[i])
  {
    KidCount(ns, ls);
    if i > 0 { KidFits(ns.next, ls[1..], i - 1); }
  }

  lemma {:induction false} KidCount(ns: Nodes, ls: seq<Links>)
    requires KidsFit(ns, ls)
    ensures |ls| == Length(ns)
  {
    if ns.Node? { KidCount(ns.next, ls[1..]); }
  }

  lemma {:induction false} RemoveFits(ns: Nodes, ls: seq<Links>, i: nat)
    requires KidsFit(ns, ls) && i < Length(ns)
    ensures |ls| == Length(ns) && KidsFit(RemoveNth(ns, i), ls[..i] + ls[i + 1..])
  {
    KidCount(ns, ls);
    if i > 0 {
      RemoveFits(ns.next, ls[1..], i - 1);
      assert (ls[..i] + ls[i + 1..])[1..] == ls[1..][..i - 1] + ls[1..][i..];
    } else {
      assert ls[..0] + ls[1..] == ls[1..];
    }
  }

  lemma {:induction false} AppendFits(ns: Nodes, ls: seq<Links>, name: string, v: Json, l: Links)
    requires KidsFit(ns, ls) && Fits(v, l)
    ensures KidsFit(Append(ns, name, v), ls + [l])
  {
    if ns.Node? {
      AppendFits(ns.next, ls[1..], name, v, l);
      assert (ls + [l])[1..] == ls[1..] + [l];
    } else {
      assert (ls + [l])[1..] == [];
    }
  }

  lemma {:induction false} InsertFits(ns: Nodes, ls: seq<Links>, i: nat, name: string, v: Json, l: Links)
    requires KidsFit(ns, ls) && Fits(v, l) && i <= Length(ns)
    ensures |ls| == Length(ns) && KidsFit(InsertNth(ns, i, name, v), ls[..i] + [l] + ls[i..])
  {
    KidCount(ns, ls);
    var more := ls[..i] + [l] + ls[i..];
    if i > 0 {
      InsertFits(ns.next, ls[1..], i - 1, name, v, l);
      assert more[1..] == ls[1..][..i - 1] + [l] + ls[1..][i - 1..];
    } else {
      assert more[1..] == ls;
    }
  }

  lemma {:induction false} SetFits(ns: Nodes, ls: seq<Links>, i: nat, v: Json, l: Links)
    requires KidsFit(ns, ls) && Fits(v, l) && i < Length(ns)
    ensures |ls| == Length(ns) && KidsFit(SetNth(ns, i, v), ls[i := l])
  {
    KidCount(ns, ls);
    if i > 0 {
      SetFits(ns.next, ls[1..], i - 1, v, l);
      assert ls[i := l][1..] == ls[1..][i - 1 := l];
    } else {
      assert ls[0 := l][1..] == ls[1..];
    }
  }

  function Kid(t: Tree, i: nat): (c: Tree)
    requires Sound(t) && i < Width(t.doc)
    ensures Sound(c) && c.doc == Child(t.doc, i) && (Clean(t.links) ==> Clean(c.links))
  {
    KidFits(t.doc.child, t.links.kids, i);
    Tree(Child(t.doc, i), t.links.kids[i])
  }

  /** Takes a child out: the child and what is left, or nothing if that writes through a stale link. */
  function TakeKid(t: Tree, i: nat): (r: Option<(Tree, Tree)>)
    requires Sound(t) && i < Width(t.doc)
    ensures r.None? <==> t.links.stale && i == 0
    ensures r.Some? ==> var (item, rest) := r.value;
      && Sound(item) && item == Kid(t, i)
      && Sound(rest) && rest.doc == t.doc.(child := RemoveNth(t.doc.child, i)) && rest.links.stale == t.links.stale
      && (Clean(t.links) ==> Clean(item.links) && Clean(rest.links))
  {
    if t.links.stale && i == 0 then None
    else
      RemoveFits(t.doc.child, t.links.kids, i);
      assert t.links.stale ==> RemoveNth(t.doc.child, i).Node?;
      Some((Kid(t, i), Tree(t.doc.(child := RemoveNth(t.doc.child, i)),
                            t.links.(kids := t.links.kids[..i] + t.links.kids[i + 1..]))))
  }

  function AddKid(t: Tree, name: string, item: Tree): (r: Tree)
    requires Sound(t) && Sound(item) && (t.doc.Array? || t.doc.Object?)
    ensures Sound(r) && r.doc == t.doc.(child := Append(t.doc.child, name, item.doc)) && r.links.stale == t.links.stale
    ensures Clean(t.links) && Clean(item.links) ==> Clean(r.links)
  {
    AppendFits(t.doc.child, t.links.kids, name, item.doc, item.links);
    Tree(t.doc.(child := Append(t.doc.child, name, item.doc)), t.links.(kids := t.links.kids + [item.links]))
  }

  function InsertKid(t: Tree, i: nat, item: Tree): (r: Tree)
    requires Sound(t) && Sound(item) && t.doc.Array? && i <= Width(t.doc)
    ensures Sound(r) && r.doc == Array(InsertNth(t.doc.child, i, "", item.doc))
    ensures Clean(t.links) && Clean(item.links) ==> Clean(r.links)
  {
    InsertFits(t.doc.child, t.links.kids, i, "", item.doc, item.links);
    Tree(Array(InsertNth(t.doc.child, i, "", item.doc)),
         t.links.(kids := t.links.kids[..i] + [item.links] + t.links.kids[i..]))
  }

  // ---------- nodes inside ----------

  function TreeAt(t: Tree, loc: seq<nat>): (r: Tree)
    requires Sound(t) && HasNode(t.doc, loc)
    ensures Sound(r) && r.doc == At(t.doc, loc) && (Clean(t.links) ==> Clean(r.links))
    decreases loc
  {
    if loc == [] then t else TreeAt(Kid(t, loc[0]), loc[1..])
  }

  function PutTree(t: Tree, loc: seq<nat>, x: Tree): (r: Tree)
    requires Sound(t) && Sound(x) && HasNode(t.doc, loc)
    ensures Sound(r) && r.doc == Put(t.doc, loc, x.doc)
    ensures Clean(t.links) && Clean(x.links) ==> Clean(r.links)
    decreases loc
  {
    if loc == [] then x
    else
      var i, below := loc[0], PutTree(Kid(t, loc[0]), loc[1..], x);
      SetFits(t.doc.child, t.links.kids, i, below.doc, below.links);
      assert SetNth(t.doc.child, i, below.doc).Node?;
      Tree(SetChild(t.doc, i, below.doc), t.links.(kids := t.links.kids[i := below.links]))
  }

  // ---------- sorting ----------

  function PairName(p: (Named, Links)): string { p.0.key }

  function PairNode(p: (Named, Links)): Named { p.0 }

  function PairLinks(p: (Named, Links)): Links { p.1 }

  function Paired(ns: Nodes, ls: seq<Links>): (s: seq<(Named, Links)>)
    requires KidsFit(ns, ls)
    ensures |s| == Length(ns) && Map(PairNode, s) == ToSeq(ns) && Map(PairLinks, s) == ls
    ensures forall p :: p in s ==> Fits(p.0.value, p.1)
  {
    if ns.End? then []
    else
      var rest := Paired(ns.next, ls[1..]);
      var first := (Named(ns.key, ns.value), ls[0]);
      MapFirst(PairNode, first, rest);
      MapFirst(PairLinks, first, rest);
      [first] + rest
  }

  lemma MapFirst<T, U>(f: T -> U, first: T, rest: seq<T>)
    ensures Map(f, [first] + rest) == [f(first)] + Map(f, rest)
  {
  }

  lemma {:induction false} UnpairedFit(s: seq<(Named, Links)>)
    requires forall p :: p in s ==> Fits(p.0.value, p.1)
    ensures KidsFit(FromSeq(Map(PairNode, s)), Map(PairLinks, s))
  {
    if s != [] {
      UnpairedFit(s[1..]);
      assert s[0] in s;
      assert Map(PairNode, s)[1..] == Map(PairNode, s[1..]) && Map(PairLinks, s)[1..] == Map(PairLinks, s[1..]);
    }
  }

  /** sort_object: the links go along with the members; the first member may keep an old one. */
  function SortTree(t: Tree, caseSensitive: bool): (r: Tree)
    requires Sound(t) && t.doc.Object?
    ensures Sound(r) && r.doc == Object(SortNodes(t.doc.child, caseSensitive))
    ensures r.links.stale
       <==> t.links.stale || (t.doc.child.Node? && Winner(ToSeq(t.doc.child), NameOf, caseSensitive) != ToSeq(t.doc.child)[0])
  {
    var s := Paired(t.doc.child, t.links.kids);
    var r := Sort(s, PairName, caseSensitive);
    SortCommutes(s, PairNode, PairName, NameOf, caseSensitive);
    SortElements(s, PairName, caseSensitive);
    UnpairedFit(r);
    assert t.doc.child.Node? ==> FromSeq(Map(PairNode, r)).Node?;
    var moved := t.doc.child.Node? && Winner(ToSeq(t.doc.child), NameOf, caseSensitive) != ToSeq(t.doc.child)[0];
    Tree(Object(SortNodes(t.doc.child, caseSensitive)), Links(t.links.stale || moved, Map(PairLinks, r)))
  }

  // ---------- the comparison ----------

  /** The links of the first tree after a comparison, which sorts the objects on its way. */
  function CompareLinks(a: Json, l: Links, b: Json, caseSensitive: bool): (r: Links)
    requires Fits(a, l)
    ensures Fits(CompareJson(a, b, caseSensitive).a, r)
    decreases Size(a) + Size(b), 0
  {
    if !SameType(a, b) then l
    else
      match a
      case Array(ns) => Links(false, CompareKids(ns, l.kids, b.child, false, caseSensitive))
      case Object(ns) =>
        SortSize(ns, caseSensitive);
        SortSize(b.child, caseSensitive);
        var t := SortTree(Tree(a, l), caseSensitive);
        Links(t.links.stale, CompareKids(SortNodes(ns, caseSensitive), t.links.kids, SortNodes(b.child, caseSensitive), true, caseSensitive))
      case _ => l
  }

  function CompareKids(a: Nodes, ls: seq<Links>, b: Nodes, named: bool, caseSensitive: bool): (r: seq<Links>)
    requires KidsFit(a, ls)
    ensures KidsFit(CompareNodes(a, b, named, caseSensitive).a, r)
    ensures CompareNodes(a, b, named, caseSensitive).a.Node? <==> a.Node?
    decreases ChainSize(a) + ChainSize(b), 1, a
  {
    if a.End? || b.End? then ls
    else if named && CompareStrings(a.key, b.key, caseSensitive) != 0 then ls
    else
      var first := CompareLinks(a.value, ls[0], b.value, caseSensitive);
      var rest := if CompareJson(a.value, b.value, caseSensitive).same
        then CompareKids(a.next, ls[1..], b.next, named, caseSensitive) else ls[1..];
      assert ([first] + rest)[1..] == rest;
      [first] + rest
  }

  function CompareTree(t: Tree, b: Json, caseSensitive: bool): (r: Tree)
    requires Sound(t)
    ensures Sound(r) && r.doc == CompareJson(t.doc, b, caseSensitive).a
  {
    Tree(CompareJson(t.doc, b, caseSensitive).a, CompareLinks(t.doc, t.links, b, caseSensitive))
  }
}
