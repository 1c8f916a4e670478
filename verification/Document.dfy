/** The document that patches are applied to in place, with its links, and the array that generated patches are appended to. */
module Documents {
  import opened Basics
  import opened CStrings
  import opened JsonModel
  import opened Pointers
  import opened Comparing
  import opened Patching
  import opened Generating
  import opened Linking
  import opened LinkedPatching

  /** The search along the siblings by name; `None` when the chain ends first. */
  method GetObjectItem(ns: Nodes, name: string, caseSensitive: bool) returns (found: Option<nat>)
    ensures var i := FindName(ns, name, caseSensitive);
            found == if i < Length(ns) then Some(i) else None
  {
    var current, i := ns, 0;
    while current.Node?
      decreases current
      invariant Length(ns) == i + Length(current)
      invariant FindName(ns, name, caseSensitive) == i + FindName(current, name, caseSensitive)
    {
      var diff := CompareLoop(name, current.key, caseSensitive);
      if diff == 0 { return Some(i); }
      current, i := current.next, i + 1;
    }
    return None;
  }

  /** The walk of insert_item_in_array: whether the position is inside the array or just behind it. */
  method CanInsertAt(ns: Nodes, which: nat) returns (ok: bool)
    ensures ok <==> which <= Length(ns)
  {
    var child, left := ns, which;
    while child.Node? && left > 0
      decreases child
      invariant 0 <= left <= which && Length(ns) == which - left + Length(child)
    {
      child, left := child.next, left - 1;
    }
    return left == 0;
  }

  method DecodedCopy(s: string) returns (decoded: string)
    ensures decoded == DecodePointer(s)
  {
    var buffer := new char[|s|](i requires 0 <= i < |s| => s[i]);
    assert buffer[..] == s;
    var end := DecodePointerInPlace(buffer);
    return buffer[..end];
  }

  /** The comparison walks both trees and sorts the objects on its way. */
  method CompareInPlace(a: Json, b: Json, caseSensitive: bool) returns (r: Compared)
    ensures r == CompareJson(a, b, caseSensitive)
    decreases Size(a) + Size(b), 0
  {
    if !SameType(a, b) { return Compared(false, a, b); }
    match a {
      case Number(n) => return Compared(n == b.num, a, b);
      case Str(s) => return Compared(s == b.text, a, b);
      case Array(ns) =>
        var nodes := CompareChains(ns, b.child, false, caseSensitive);
        return Compared(nodes.same, Array(nodes.a), Array(nodes.b));
      case Object(ns) =>
        SortSize(ns, caseSensitive);
        SortSize(b.child, caseSensitive);
        var nodes := CompareChains(SortNodes(ns, caseSensitive), SortNodes(b.child, caseSensitive), true, caseSensitive);
        return Compared(nodes.same, Object(nodes.a), Object(nodes.b));
      case _ => return Compared(true, a, b);
    }
  }

  /** A comparison of the rest, put behind what has been compared. */
  function Behind(a: Nodes, b: Nodes, rest: ComparedNodes): ComparedNodes {
    ComparedNodes(rest.same, Concat(a, rest.a), Concat(b, rest.b))
  }

  method CompareChains(a: Nodes, b: Nodes, named: bool, caseSensitive: bool) returns (r: ComparedNodes)
    ensures r == CompareNodes(a, b, named, caseSensitive)
    decreases ChainSize(a) + ChainSize(b), 1
  {
    var x, y := a, b;
    var doneA, doneB := End, End;
    while x.Node? && y.Node?
      decreases x
      invariant ChainSize(x) <= ChainSize(a) && ChainSize(y) <= ChainSize(b)
      invariant CompareNodes(a, b, named, caseSensitive) == Behind(doneA, doneB, CompareNodes(x, y, named, caseSensitive))
    {
      if named {
        var diff := CompareLoop(x.key, y.key, caseSensitive);
        if diff != 0 { return ComparedNodes(false, Concat(doneA, x), Concat(doneB, y)); }
      }
      var c := CompareInPlace(x.value, y.value, caseSensitive);
      if !c.same {
        return ComparedNodes(false, Concat(doneA, x.(value := c.a)), Concat(doneB, y.(value := c.b)));
      }
      ghost var rest := CompareNodes(x.next, y.next, named, caseSensitive);
      AppendIsConcat(doneA, x.key, c.a);
      AppendIsConcat(doneB, y.key, c.b);
      ConcatAssociates(doneA, Node(x.key, c.a, End), rest.a);
      ConcatAssociates(doneB, Node(y.key, c.b, End), rest.b);
      doneA, doneB := Append(doneA, x.key, c.a), Append(doneB, y.key, c.b);
      x, y := x.next, y.next;
    }
    return ComparedNodes(x.End? && y.End?, Concat(doneA, x), Concat(doneB, y));
  }

  method DetachChild(parent: Tree, name: string) returns (r: Taking)
    requires Sound(parent)
    ensures r == TakeFrom(parent, name)
  {
    var found := None;
    if parent.doc.Array? {
      var index := DecodeArrayIndexFromPointer(name);
      if index.None? { return Missing; }
      found := GetArrayItemLoop(parent.doc.child, index.value);
    } else if parent.doc.Object? {
      found := GetObjectItem(parent.doc.child, name, false);
    }
    if found.None? { return Missing; }
    var taken := TakeKid(parent, found.value);
    return if taken.None? then Spoilt else Taken(taken.value.0, taken.value.1);
  }

  method AddChild(parent: Tree, name: string, item: Tree, caseSensitive: bool) returns (e: Effect)
    requires Sound(parent) && Sound(item)
    ensures e == AddOnto(parent, name, item, caseSensitive)
  {
    match parent.doc {
      case Array(ns) =>
        if name == "-" { return Ends(0, AddKid(parent, "", item)); }
        var index := DecodeArrayIndexFromPointer(name);
        if index.None? { return Ends(11, parent); }
        var ok := CanInsertAt(ns, index.value);
        if !ok { return Ends(10, parent); }
        return Ends(0, InsertKid(parent, index.value, item));
      case Object(ns) =>
        var present := GetObjectItem(ns, name, caseSensitive);
        if present.None? { return Ends(0, AddKid(parent, name, item)); }
        var taken := TakeKid(parent, present.value);
        if taken.None? { return Broken; }
        return Ends(0, AddKid(taken.value.1, name, item));
      case _ =>
        return Ends(9, parent);
    }
  }

  /**
   * The document: a root whose tree the patch operations change. Statuses are absent when an operation writes through
   * a stale link; nothing is said of the document then.
   */
  class Document {
    var tree: Tree

    constructor (root: Json)
      ensures tree == Fresh(root) && Sound(tree)
    {
      this.tree := Fresh(root);
    }

    method Detach(path: string, caseSensitive: bool) returns (r: Taking)
      requires Sound(tree)
      modifies this
      ensures Sound(tree) && r == TakePath(old(tree), path, caseSensitive)
      ensures tree == if r.Taken? then r.rest else old(tree)
    {
      var slash := LastSlash(path);
      if slash.None? { return Missing; }
      var loc := GetItemFromPointer(tree.doc, path[..slash.value], caseSensitive);
      var name := DecodedCopy(path[slash.value + 1..]);
      if loc.None? { return Missing; }
      r := DetachChild(TreeAt(tree, loc.value), name);
      if r.Taken? {
        tree := PutTree(tree, loc.value, r.rest);
        r := Taken(r.item, tree);
      }
    }

    method Add(path: string, item: Tree, caseSensitive: bool) returns (status: Option<int>)
      requires Sound(tree) && Sound(item)
      modifies this
      ensures Sound(tree) && Is(AddTree(old(tree), path, item, caseSensitive), status)
    {
      var slash := LastSlash(path);
      if slash.None? { return Some(9); }
      var loc := GetItemFromPointer(tree.doc, path[..slash.value], caseSensitive);
      var name := DecodedCopy(path[slash.value + 1..]);
      if loc.None? { return Some(9); }
      var e := AddChild(TreeAt(tree, loc.value), name, item, caseSensitive);
      if e.Broken? { return None; }
      tree := PutTree(tree, loc.value, e.tree);
      return Some(e.status);
    }

    /** The document and the status are what `e` says, or it has broken. */
    predicate Is(e: Effect, status: Option<int>)
      reads this
    {
      match e
      case Broken => status == None
      case Ends(s, t) => status == Some(s) && tree == t
    }

    /** One patch, by the steps of apply_patch. */
    method Apply(patch: Json, caseSensitive: bool) returns (status: Option<int>)
      requires Sound(tree)
      modifies this
      ensures Sound(tree) && Is(LinkedPatching.Apply(old(tree), patch, caseSensitive), status)
    {
      var r := ReadPatch(patch, caseSensitive);
      if r.path.None? || !r.path.value.Str? { return Some(2); }
      var path := r.path.value.text;
      if r.opcode == INVALID {
        return Some(3);
      } else if r.opcode == TEST {
        var s := Test(path, r.value, caseSensitive);
        return Some(s);
      }
      if path == "" {
        if r.opcode == REMOVE {
          tree := Fresh(Invalid);
          return Some(0);
        }
        if r.opcode == REPLACE || r.opcode == ADD {
          if r.value.None? { return Some(7); }
          tree := Fresh(r.value.value);
          return Some(0);
        }
      }
      if r.opcode == REMOVE || r.opcode == REPLACE {
        var gone := Detach(path, caseSensitive);
        if gone.Missing? { return Some(13); }
        if gone.Spoilt? { return None; }
        if r.opcode == REMOVE { return Some(0); }
      }
      var item := Fresh(Null);
      if r.opcode == MOVE || r.opcode == COPY {
        if r.from.None? { return Some(4); }
        if !r.from.value.Str? { return if r.opcode == MOVE then None else Some(5); }
        if r.opcode == MOVE {
          var taken := Detach(r.from.value.text, caseSensitive);
          if taken.Missing? { return Some(5); }
          if taken.Spoilt? { return None; }
          item := taken.item;
        } else {
          var loc := GetItemFromPointer(tree.doc, r.from.value.text, caseSensitive);
          if loc.None? { return Some(5); }
          item := Fresh(At(tree.doc, loc.value));
        }
      } else {
        if r.value.None? { return Some(7); }
        item := Fresh(r.value.value);
      }
      status := Add(path, item, caseSensitive);
    }

    method Test(path: string, value: Option<Json>, caseSensitive: bool) returns (status: int)
      requires Sound(tree)
      modifies this
      ensures Sound(tree) && Ends(status, tree) == TestTree(old(tree), path, value, caseSensitive)
    {
      var loc := GetItemFromPointer(tree.doc, path, caseSensitive);
      if loc.None? || value.None? { return 1; }
      var node := TreeAt(tree, loc.value);
      var r := CompareInPlace(node.doc, value.value, caseSensitive);
      tree := PutTree(tree, loc.value, Tree(r.a, CompareLinks(node.doc, node.links, value.value, caseSensitive)));
      return if r.same then 0 else 1;
    }

    /** Patches in order until one fails or breaks; status 1 when there is no array of patches. */
    method ApplyPatches(patches: Json, caseSensitive: bool) returns (status: Option<int>)
      requires Sound(tree)
      modifies this
      ensures Sound(tree)
      ensures patches.Array? ==> Is(ApplyList(old(tree), patches.child, caseSensitive), status)
      ensures !patches.Array? ==> status == Some(1) && tree == old(tree)
    {
      if !patches.Array? { return Some(1); }
      var current := patches.child;
      while current.Node?
        decreases current
        invariant Sound(tree)
        invariant ApplyList(tree, current, caseSensitive) == ApplyList(old(tree), patches.child, caseSensitive)
      {
        status := Apply(current.value, caseSensitive);
        if status != Some(0) { return; }
        current := current.next;
      }
      return Some(0);
    }
  }

  /** The array of patches under construction. */
  class PatchArray {
    var child: Nodes

    constructor ()
      ensures child == End
    {
      child := End;
    }

    method ComposePatch(op: string, path: string, suffix: Option<string>, value: Option<Json>, memory: Memory)
      modifies this
      ensures child == Concat(old(child), One(Compose(op, path, suffix, value, memory)))
    {
      AppendIsConcat(child, "", Compose(op, path, suffix, value, memory));
      child := Append(child, "", Compose(op, path, suffix, value, memory));
    }

    /** Walks both trees together and appends a patch for every difference. */
    method CreatePatches(path: string, from: Json, to: Json, caseSensitive: bool, memory: Memory)
      modifies this
      ensures child == Concat(old(child), Patches(path, from, to, caseSensitive, memory))
      decreases Size(from) + Size(to), 0
    {
      ConcatEnd(child);
      if !SameType(from, to) {
        ComposePatch("replace", path, None, Some(to), memory);
        return;
      }
      match from {
        case Number(n) =>
          if n != to.num { ComposePatch("replace", path, None, Some(to), memory); }
        case Str(s) =>
          if s != to.text { ComposePatch("replace", path, None, Some(to), memory); }
        case Array(ns) =>
          PatchItems(path, ns, to.child, caseSensitive, memory);
        case Object(ns) =>
          SortSize(ns, caseSensitive);
          SortSize(to.child, caseSensitive);
          PatchMembers(path, SortNodes(ns, caseSensitive), SortNodes(to.child, caseSensitive), caseSensitive, memory);
        case _ =>
      }
    }

    /** Three loops: common elements, leftovers of the first array, additions from the second. */
    method PatchItems(path: string, f0: Nodes, t0: Nodes, caseSensitive: bool, memory: Memory)
      modifies this
      ensures child == Concat(old(child), ItemPatches(path, 0, f0, t0, caseSensitive, memory))
      decreases ChainSize(f0) + ChainSize(t0), 1
    {
      var f, t, index := f0, t0, 0;
      ghost var whole := Concat(old(child), ItemPatches(path, 0, f0, t0, caseSensitive, memory));
      while f.Node? && t.Node?
        decreases f
        invariant 0 <= index && ChainSize(f) <= ChainSize(f0) && ChainSize(t) <= ChainSize(t0)
        invariant Concat(child, ItemPatches(path, index, f, t, caseSensitive, memory)) == whole
      {
        ConcatAssociates(child, Patches(path + "/" + Decimal(index), f.value, t.value, caseSensitive, memory),
                         ItemPatches(path, index + 1, f.next, t.next, caseSensitive, memory));
        CreatePatches(path + "/" + Decimal(index), f.value, t.value, caseSensitive, memory);
        f, t, index := f.next, t.next, index + 1;
      }
      while f.Node?
        decreases f
        invariant f.Node? ==> t.End?
        invariant Concat(child, ItemPatches(path, index, f, t, caseSensitive, memory)) == whole
      {
        ConcatAssociates(child, One(Compose("remove", path, Some(Decimal(index)), None, memory)),
                         ItemPatches(path, index, f.next, t, caseSensitive, memory));
        ComposePatch("remove", path, Some(Decimal(index)), None, memory);
        f := f.next;
      }
      while t.Node?
        decreases t
        invariant 0 <= index && Concat(child, ItemPatches(path, index, f, t, caseSensitive, memory)) == whole
      {
        ConcatAssociates(child, One(Compose("add", path, Some("-"), Some(t.value), memory)),
                         ItemPatches(path, index + 1, f, t.next, caseSensitive, memory));
        ComposePatch("add", path, Some("-"), Some(t.value), memory);
        t, index := t.next, index + 1;
      }
      ConcatEnd(child);
    }

    /** The walk over two sorted chains of members. */
    method PatchMembers(path: string, f0: Nodes, t0: Nodes, caseSensitive: bool, memory: Memory)
      modifies this
      ensures child == Concat(old(child), MemberPatches(path, f0, t0, caseSensitive, memory))
      decreases ChainSize(f0) + ChainSize(t0), 1
    {
      var f, t := f0, t0;
      ghost var whole := Concat(old(child), MemberPatches(path, f0, t0, caseSensitive, memory));
      while f.Node? || t.Node?
        decreases ChainSize(f) + ChainSize(t)
        invariant ChainSize(f) <= ChainSize(f0) && ChainSize(t) <= ChainSize(t0)
        invariant Concat(child, MemberPatches(path, f, t, caseSensitive, memory)) == whole
      {
        var diff := 1;
        if f.Node? {
          diff := -1;
          if t.Node? { diff := CompareLoop(f.key, t.key, caseSensitive); }
        }
        if diff == 0 {
          var below := path + "/" + Escaped(f.key, memory);
          ConcatAssociates(child, Patches(below, f.value, t.value, caseSensitive, memory),
                           MemberPatches(path, f.next, t.next, caseSensitive, memory));
          CreatePatches(below, f.value, t.value, caseSensitive, memory);
          f, t := f.next, t.next;
        } else if diff < 0 {
          ConcatAssociates(child, One(Compose("remove", path, Some(f.key), None, memory)),
                           MemberPatches(path, f.next, t, caseSensitive, memory));
          ComposePatch("remove", path, Some(f.key), None, memory);
          f := f.next;
        } else {
          ConcatAssociates(child, One(Compose("add", path, Some(t.key), Some(t.value), memory)),
                           MemberPatches(path, f, t.next, caseSensitive, memory));
          ComposePatch("add", path, Some(t.key), Some(t.value), memory);
          t := t.next;
        }
      }
      ConcatEnd(child);
    }
  }

  /** Generating patches and applying them to a copy of the first tree turns the copy into the second. */
  method PatchCopy(copy: Json, from: Json, to: Json, caseSensitive: bool, memory: Memory, ghost ok: string -> bool)
    returns (doc: Document, status: Option<int>)
    requires Agreeing(ok) && forall k :: ok(k) ==> '~' !in k && '/' !in k
    requires WellFormed(copy, ok) && WellFormed(from, ok) && WellFormed(to, ok)
    requires Meaning(copy) == Meaning(from)
    ensures status == Some(0) && Meaning(doc.tree.doc) == Meaning(to) && Same(doc.tree.doc, to, true)
  {
    hide WellFormed, Meaning, Agreeing, Same, Sound, Clean, ApplyList, Patches;
    var patches := new PatchArray();
    patches.CreatePatches("", from, to, caseSensitive, memory);
    doc := new Document(copy);
    status := doc.ApplyPatches(Array(patches.child), caseSensitive);
    LinkedPatching.PatchRoundTrip(Fresh(copy), from, to, caseSensitive, memory, ok);
  }
}
