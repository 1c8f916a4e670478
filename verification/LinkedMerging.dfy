/** Merging into trees with links, and into the tree that generating the patch has just sorted. */
module LinkedMerging {
  import opened Basics
  import opened CStrings
  import opened JsonModel
  import opened Sorting
  import opened Comparing
  import opened Merging
  import opened Linking

  // ---------- merge_patch ----------

  function DocOf(target: Option<Tree>): Option<Json> {
    if target.Some? then Some(target.value.doc) else None
  }

  /** What is merged, or nothing if that writes through a stale link. */
  function MergeTree(target: Option<Tree>, patch: Json, caseSensitive: bool): (r: Option<Tree>)
    requires target.Some? ==> Sound(target.value)
    ensures r.Some? ==> Sound(r.value) && r.value.doc == MergePatch(DocOf(target), patch, caseSensitive)
    ensures (target.Some? ==> Clean(target.value.links)) ==> r.Some? && Clean(r.value.links)
    decreases patch, 2
  {
    if !patch.Object? then Some(Fresh(patch))
    else MergeIntoTree(if target.Some? && target.value.doc.Object? then target.value else Fresh(Object(End)), patch.child, caseSensitive)
  }

  function MergeIntoTree(t: Tree, p: Nodes, caseSensitive: bool): (r: Option<Tree>)
    requires Sound(t) && t.doc.Object?
    ensures r.Some? ==> Sound(r.value) && r.value.doc == Object(MergeInto(t.doc.child, p, caseSensitive))
    ensures Clean(t.links) ==> r.Some? && Clean(r.value.links)
    decreases p, 1
  {
    if p.End? then Some(t)
    else
      var k := FindName(t.doc.child, p.key, caseSensitive);
      if k < Length(t.doc.child) then
        match TakeKid(t, k)
        case None => None
        case Some((item, rest)) => MergeMember(Some(item), rest, p, caseSensitive)
      else MergeMember(None, t, p, caseSensitive)
  }

  function MergedMember(old0: Option<Json>, rest: Nodes, p: Nodes, caseSensitive: bool): Nodes
    requires p.Node?
  {
    MergeInto(if p.value.Null? then rest else Append(rest, p.key, MergePatch(old0, p.value, caseSensitive)), p.next, caseSensitive)
  }

  /** The member has been taken out; the new one, if any, and the rest of the patch follow. */
  function MergeMember(old0: Option<Tree>, rest: Tree, p: Nodes, caseSensitive: bool): (r: Option<Tree>)
    requires p.Node? && Sound(rest) && rest.doc.Object? && (old0.Some? ==> Sound(old0.value))
    ensures r.Some? ==> Sound(r.value)
    ensures r.Some? ==> r.value.doc == Object(MergedMember(DocOf(old0), rest.doc.child, p, caseSensitive))
    ensures Clean(rest.links) && (old0.Some? ==> Clean(old0.value.links)) ==> r.Some? && Clean(r.value.links)
    decreases p, 0
  {
    if p.value.Null? then MergeIntoTree(rest, p.next, caseSensitive)
    else
      match MergeTree(old0, p.value, caseSensitive)
      case None => None
      case Some(m) => MergeIntoTree(AddKid(rest, p.key, m), p.next, caseSensitive)
  }

  method MergeInPlace(target: Option<Tree>, patch: Json, caseSensitive: bool) returns (r: Option<Tree>)
    requires target.Some? ==> Sound(target.value)
    ensures r == MergeTree(target, patch, caseSensitive)
    decreases Size(patch)
  {
    if !patch.Object? { return Some(Fresh(patch)); }
    var t := if target.Some? && target.value.doc.Object? then target.value else Fresh(Object(End));
    var p := patch.child;
    while p.Node?
      decreases p
      invariant Sound(t) && t.doc.Object? && ChainSize(p) <= ChainSize(patch.child)
      invariant MergeIntoTree(t, p, caseSensitive) == MergeTree(target, patch, caseSensitive)
    {
      var k, replaced := FindName(t.doc.child, p.key, caseSensitive), None;
      if k < Length(t.doc.child) {
        var taken := TakeKid(t, k);
        if taken.None? { return None; }
        replaced, t := Some(taken.value.0), taken.value.1;
      }
      if !p.value.Null? {
        var member := MergeInPlace(replaced, p.value, caseSensitive);
        if member.None? { return None; }
        t := AddKid(t, p.key, member.value);
      }
      p := p.next;
    }
    return Some(t);
  }

  // ---------- exactly when merging breaks ----------

  function ByName(t: Tree, name: string): (r: Option<Tree>)
    requires Sound(t) && t.doc.Object?
    ensures r.Some? ==> Sound(r.value)
  {
    var i := FindKey(t.doc.child, name);
    if i < Length(t.doc.child) then Some(Kid(t, i)) else None
  }

  /** No object on the way has a stale link at a first member that the patch names. */
  predicate Spares(t: Tree, patch: Json)
    requires Sound(t)
    decreases patch, 1
  {
    patch.Object? && t.doc.Object? ==>
      (t.links.stale ==> t.doc.child.key !in Keys(patch.child)) && SparesKids(t, patch.child)
  }

  predicate SparesKids(t: Tree, p: Nodes)
    requires Sound(t) && t.doc.Object?
    decreases p, 0
  {
    p.End? ||
    ((var c := ByName(t, p.key); c.Some? && !p.value.Null? ==> Spares(c.value, p.value)) && SparesKids(t, p.next))
  }

  lemma {:induction false} FindAfterRemoval(ns: Nodes, k: nat, name: string)
    requires k < Length(ns) && KeyAt(ns, k) != name
    ensures FindKey(ns, name) != k
    ensures FindKey(RemoveNth(ns, k), name) == if FindKey(ns, name) < k then FindKey(ns, name) else FindKey(ns, name) - 1
  {
    if k > 0 && ns.key != name { FindAfterRemoval(ns.next, k - 1, name); }
  }

  lemma {:induction false} NthAfterRemoval(ns: Nodes, k: nat, i: nat)
    requires k < Length(ns) && i < Length(ns) - 1
    ensures Nth(RemoveNth(ns, k), i) == Nth(ns, if i < k then i else i + 1)
  {
    if k > 0 && i > 0 { NthAfterRemoval(ns.next, k - 1, i - 1); }
  }

  lemma {:induction false} FindAfterAppend(ns: Nodes, key: string, v: Json, name: string)
    requires key != name
    ensures FindKey(ns, name) < Length(ns) ==> FindKey(Append(ns, key, v), name) == FindKey(ns, name)
    ensures FindKey(ns, name) == Length(ns) ==> FindKey(Append(ns, key, v), name) == Length(ns) + 1
    ensures Length(Append(ns, key, v)) == Length(ns) + 1
  {
    if ns.Node? && ns.key != name { FindAfterAppend(ns.next, key, v, name); }
    if ns.Node? && ns.key == name { AppendLength(ns, key, v); }
  }

  lemma {:induction false} AppendLength(ns: Nodes, key: string, v: Json)
    ensures Length(Append(ns, key, v)) == Length(ns) + 1
  {
    if ns.Node? { AppendLength(ns.next, key, v); }
  }

  lemma {:induction false} NthAfterAppend(ns: Nodes, key: string, v: Json, i: nat)
    requires i < Length(ns)
    ensures i < Length(Append(ns, key, v)) && Nth(Append(ns, key, v), i) == Nth(ns, i)
  {
    AppendLength(ns, key, v);
    if i > 0 { NthAfterAppend(ns.next, key, v, i - 1); }
  }

  /** The other members stay what they are. */
  lemma ByNameAfterTaking(t: Tree, k: nat, name: string)
    requires Sound(t) && t.doc.Object? && k < Width(t.doc) && KeyAt(t.doc.child, k) != name && TakeKid(t, k).Some?
    ensures ByName(TakeKid(t, k).value.1, name) == ByName(t, name)
  {
    FindAfterRemoval(t.doc.child, k, name);
    var i := FindKey(t.doc.child, name);
    if i < Length(t.doc.child) {
      KidFits(t.doc.child, t.links.kids, i);
      NthAfterRemoval(t.doc.child, k, if i < k then i else i - 1);
    }
  }

  lemma ByNameAfterAdding(t: Tree, key: string, item: Tree, name: string)
    requires Sound(t) && Sound(item) && t.doc.Object? && key != name
    ensures ByName(AddKid(t, key, item), name) == ByName(t, name)
  {
    FindAfterAppend(t.doc.child, key, item.doc, name);
    var i := FindKey(t.doc.child, name);
    if i < Length(t.doc.child) {
      KidFits(t.doc.child, t.links.kids, i);
      NthAfterAppend(t.doc.child, key, item.doc, i);
    }
  }

  /** Two objects that agree on the members a patch names. */
  lemma {:induction false} SparesAlike(t: Tree, u: Tree, p: Nodes)
    requires Sound(t) && Sound(u) && t.doc.Object? && u.doc.Object?
    requires forall name :: name in Keys(p) ==> ByName(t, name) == ByName(u, name)
    ensures SparesKids(t, p) <==> SparesKids(u, p)
  {
    if p.Node? { SparesAlike(t, u, p.next); }
  }

  /** What the rest of the patch meets after one member of it. */
  ghost predicate Meets(t: Tree, p: Nodes)
    requires Sound(t) && t.doc.Object?
  {
    (t.links.stale ==> t.doc.child.key !in Keys(p)) && SparesKids(t, p)
  }

  /** Merging goes through exactly if the patch spares the first members with stale links. */
  lemma {:induction false} MergesIff(t: Tree, patch: Json, caseSensitive: bool, ok: string -> bool)
    requires Separates(ok, caseSensitive) && Sound(t) && WellFormed(t.doc, ok) && WellFormed(patch, ok)
    ensures MergeTree(Some(t), patch, caseSensitive).Some? <==> Spares(t, patch)
    decreases patch, 2
  {
    if patch.Object? {
      if t.doc.Object? {
        MergesIntoIff(t, patch.child, caseSensitive, ok);
      }
    }
  }

  lemma {:induction false} MergesIntoIff(t: Tree, p: Nodes, caseSensitive: bool, ok: string -> bool)
    requires Separates(ok, caseSensitive) && Sound(t) && t.doc.Object? && MembersOk(t.doc.child, ok) && MembersOk(p, ok)
    ensures MergeIntoTree(t, p, caseSensitive).Some? <==> Meets(t, p)
    decreases p, 1
  {
    if p.Node? {
      hide MergeMember, Meets, Sound, Separates, Spares, SparesKids;
      var ns := t.doc.child;
      FindNameIsFindKey(ns, p.key, caseSensitive, ok);
      TakenOut(ns, p.key, ok);
      var k := FindKey(ns, p.key);
      if k < Length(ns) {
        MeetsFound(t, p, k);
        if !(t.links.stale && k == 0) {
          var (item, rest) := TakeKid(t, k).value;
          TakingKeeps(t, k, p);
          MemberIff(Some(item), rest, p, caseSensitive, ok);
        }
      } else {
        MeetsNone(t, p);
        MemberIff(None, t, p, caseSensitive, ok);
      }
    } else {
      MeetsNothing(t);
    }
  }

  lemma MeetsNothing(t: Tree)
    requires Sound(t) && t.doc.Object?
    ensures Meets(t, End)
  {
  }

  lemma MeetsFound(t: Tree, p: Nodes, k: nat)
    requires Sound(t) && t.doc.Object? && p.Node? && k == FindKey(t.doc.child, p.key) < Length(t.doc.child)
    ensures KeyAt(t.doc.child, k) == p.key
    ensures Meets(t, p) <==> !(t.links.stale && k == 0) && Meets(t, p.next) && (!p.value.Null? ==> Spares(Kid(t, k), p.value))
  {
    KeyFound(t.doc.child, p.key);
  }

  lemma MeetsNone(t: Tree, p: Nodes)
    requires Sound(t) && t.doc.Object? && p.Node? && FindKey(t.doc.child, p.key) == Length(t.doc.child)
    ensures p.key !in Keys(t.doc.child)
    ensures Meets(t, p) <==> Meets(t, p.next)
  {
    NotFound(t.doc.child, p.key);
  }

  lemma {:induction false} KeyFound(ns: Nodes, name: string)
    requires FindKey(ns, name) < Length(ns)
    ensures KeyAt(ns, FindKey(ns, name)) == name
  {
    if ns.key != name { KeyFound(ns.next, name); }
  }

  lemma {:induction false} NotFound(ns: Nodes, name: string)
    requires FindKey(ns, name) == Length(ns)
    ensures name !in Keys(ns)
  {
    if ns.Node? { NotFound(ns.next, name); }
  }

  /** Taking a member out changes nothing for the rest of the patch. */
  lemma TakingKeeps(t: Tree, k: nat, p: Nodes)
    requires Sound(t) && t.doc.Object? && k < Length(t.doc.child) && p.Node? && Distinct(p) && KeyAt(t.doc.child, k) == p.key
    requires !(t.links.stale && k == 0)
    ensures Meets(TakeKid(t, k).value.1, p.next) <==> Meets(t, p.next)
  {
    var rest := TakeKid(t, k).value.1;
    forall name | name in Keys(p.next) ensures ByName(rest, name) == ByName(t, name) {
      ByNameAfterTaking(t, k, name);
    }
    SparesAlike(rest, t, p.next);
  }

  lemma {:induction false} MemberIff(old0: Option<Tree>, rest: Tree, p: Nodes, caseSensitive: bool, ok: string -> bool)
    requires Separates(ok, caseSensitive) && p.Node? && MembersOk(p, ok)
    requires Sound(rest) && rest.doc.Object? && MembersOk(rest.doc.child, ok) && p.key !in Keys(rest.doc.child)
    requires old0.Some? ==> Sound(old0.value) && WellFormed(old0.value.doc, ok)
    ensures MergeMember(old0, rest, p, caseSensitive).Some?
       <==> Meets(rest, p.next) && (old0.Some? && !p.value.Null? ==> Spares(old0.value, p.value))
    decreases p, 0
  {
    if p.value.Null? {
      MergesIntoIff(rest, p.next, caseSensitive, ok);
    } else {
      if old0.Some? { MergesIff(old0.value, p.value, caseSensitive, ok); }
      var m := MergeTree(old0, p.value, caseSensitive);
      if m.Some? {
        MergeImplementsRfc(DocOf(old0), p.value, caseSensitive, ok);
        AppendMeaning(rest.doc.child, p.key, m.value.doc, ok);
        AppendField(rest.doc.child, p.key, m.value.doc);
        MergesIntoIff(AddKid(rest, p.key, m.value), p.next, caseSensitive, ok);
        AddingKeeps(rest, p, m.value);
      }
    }
  }

  lemma AddingKeeps(rest: Tree, p: Nodes, item: Tree)
    requires Sound(rest) && Sound(item) && rest.doc.Object? && p.Node? && Distinct(p)
    ensures Meets(AddKid(rest, p.key, item), p.next) <==> Meets(rest, p.next)
  {
    var more := AddKid(rest, p.key, item);
    forall name | name in Keys(p.next) ensures ByName(more, name) == ByName(rest, name) {
      ByNameAfterAdding(rest, p.key, item, name);
    }
    SparesAlike(more, rest, p.next);
  }

  // ---------- the round trip ----------

  /**
   * Merging the generated patch gives the second tree exactly when no member has to become null, as long as it does not
   * break: never in a tree with clean links, otherwise exactly if the patch names a first member with a stale link.
   */
  lemma MergeRoundTrip(t: Tree, from: Json, to: Json, caseSensitive: bool, mergeSensitive: bool, ok: string -> bool)
    requires Agreeing(ok) && Sound(t) && WellFormed(t.doc, ok) && WellFormed(from, ok) && WellFormed(to, ok)
    requires Meaning(t.doc) == Meaning(from)
    ensures var g := Generate(from, to, caseSensitive);
      && (g.patch == None <==> from.Object? && to.Object? && Meaning(from) == Meaning(to))
      && (g.patch.Some? ==>
            var merged := MergeTree(Some(t), g.patch.value, mergeSensitive);
            && (merged.Some? <==> Spares(t, g.patch.value))
            && (Clean(t.links) ==> merged.Some?)
            && (merged.Some? ==> WellFormed(merged.value.doc, ok)
                                 && (Meaning(merged.value.doc) == Meaning(to) <==> Expressible(Meaning(from), Meaning(to)))))
  {
    hide Agreeing, Separates, WellFormed, Meaning, Spares, Expressible, Sound, Clean, MergePatch;
    Merging.MergeRoundTrip(t.doc, from, to, caseSensitive, mergeSensitive, ok);
    GeneratesDifference(from, to, caseSensitive, ok);
    AgreeingSeparates(ok, mergeSensitive);
    var g := Generate(from, to, caseSensitive);
    if g.patch.Some? { MergesIff(t, g.patch.value, mergeSensitive, ok); }
  }

  // ---------- the tree that generating leaves ----------

  /** The links of the first tree after generate_merge_patch has sorted and compared its way through it. */
  function GeneratedLinks(from: Json, l: Links, to: Json, caseSensitive: bool): (r: Links)
    requires Fits(from, l)
    ensures Fits(Generate(from, to, caseSensitive).from, r)
    decreases Size(from) + Size(to), 0
  {
    if !to.Object? || !from.Object? then l
    else
      SortSize(from.child, caseSensitive);
      SortSize(to.child, caseSensitive);
      var t := SortTree(Tree(from, l), caseSensitive);
      Links(t.links.stale, GeneratedKids(SortNodes(from.child, caseSensitive), t.links.kids, SortNodes(to.child, caseSensitive), caseSensitive))
  }

  function GeneratedKids(f: Nodes, ls: seq<Links>, t: Nodes, caseSensitive: bool): (r: seq<Links>)
    requires KidsFit(f, ls)
    ensures KidsFit(GenerateMembers(f, t, caseSensitive).from, r)
    ensures GenerateMembers(f, t, caseSensitive).from.Node? <==> f.Node?
    ensures f.Node? ==> GenerateMembers(f, t, caseSensitive).from.key == f.key
    decreases ChainSize(f) + ChainSize(t), 1
  {
    if f.End? && t.End? then []
    else
      var diff := if f.End? then 1 else if t.End? then -1 else CompareStrings(f.key, t.key, true);
      if diff < 0 && f.Node? then
        var rest := GeneratedKids(f.next, ls[1..], t, caseSensitive);
        assert ([ls[0]] + rest)[1..] == rest;
        [ls[0]] + rest
      else if diff > 0 && t.Node? then GeneratedKids(f, ls, t.next, caseSensitive)
      else if f.Node? && t.Node? then
        var c := CompareJson(f.value, t.value, caseSensitive);
        CompareSize(f.value, t.value, caseSensitive);
        var l := CompareLinks(f.value, ls[0], t.value, caseSensitive);
        var first := if c.same then l else GeneratedLinks(c.a, l, c.b, false);
        var rest := GeneratedKids(f.next, ls[1..], t.next, caseSensitive);
        assert ([first] + rest)[1..] == rest;
        [first] + rest
      else ls
  }

  /**
   * Merging the patch back into the very tree it was generated from breaks if another member than the first wins the
   * tournament of the sort, and the patch names it.
   */
  lemma MergingBackBreaks(from: Json, l: Links, to: Json, caseSensitive: bool, mergeSensitive: bool, ok: string -> bool)
    requires Agreeing(ok) && Fits(from, l) && WellFormed(from, ok) && WellFormed(to, ok)
    requires from.Object? && to.Object? && from.child.Node?
    requires Winner(ToSeq(from.child), NameOf, caseSensitive) != ToSeq(from.child)[0]
    ensures var g := Generate(from, to, caseSensitive);
      var t := Tree(g.from, GeneratedLinks(from, l, to, caseSensitive));
      && Sound(t) && t.links.stale
      && (g.patch.Some? && Winner(ToSeq(from.child), NameOf, caseSensitive).key in Keys(g.patch.value.child) ==>
            MergeTree(Some(t), g.patch.value, mergeSensitive).None?)
  {
    hide Agreeing, Separates, Sort, Winner, WellFormed, Meaning, GenerateMembers, MergeTree, GeneratedKids;
    var g := Generate(from, to, caseSensitive);
    var t := Tree(g.from, GeneratedLinks(from, l, to, caseSensitive));
    WinnerIsFirst(ToSeq(from.child), NameOf, caseSensitive);
    SortSize(from.child, caseSensitive);
    SortSize(to.child, caseSensitive);
    var sorted := SortTree(Tree(from, l), caseSensitive);
    var kids := GeneratedKids(SortNodes(from.child, caseSensitive), sorted.links.kids, SortNodes(to.child, caseSensitive), caseSensitive);
    assert |Sort(ToSeq(from.child), NameOf, caseSensitive)| > 0;
    GeneratesDifference(from, to, caseSensitive, ok);
    AgreeingSeparates(ok, mergeSensitive);
    if g.patch.Some? { MergesIff(t, g.patch.value, mergeSensitive, ok); }
  }
}
