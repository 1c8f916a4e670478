/** Patch documents as RFC 6902 writes them, and that apply_patch reads them so. */
module Writing {
  import opened Basics
  import opened CStrings
  import opened JsonModel
  import opened Pointers
  import opened Comparing
  import opened Rfc6902
  import opened Patching
  import opened Generating
  import opened Failing
  import opened Linking
  import L = LinkedPatching
  import E = Escaping

  /** The members that section 4 of RFC 6902 asks for. */
  function Members(op: Op): map<string, Value> {
    match op
    case Add(path, x) => map["op" := VStr("add"), "path" := VStr(E.PointerString(path)), "value" := x]
    case Remove(path) => map["op" := VStr("remove"), "path" := VStr(E.PointerString(path))]
    case Replace(path, x) => map["op" := VStr("replace"), "path" := VStr(E.PointerString(path)), "value" := x]
    case Move(from, path) =>
      map["op" := VStr("move"), "from" := VStr(E.PointerString(from)), "path" := VStr(E.PointerString(path))]
    case Copy(from, path) =>
      map["op" := VStr("copy"), "from" := VStr(E.PointerString(from)), "path" := VStr(E.PointerString(path))]
    case Test(path, x) => map["op" := VStr("test"), "path" := VStr(E.PointerString(path)), "value" := x]
  }

  /** The names of a patch object can be told from each other and from the ones that are looked for. */
  ghost predicate PatchNames(own: string -> bool, caseSensitive: bool) {
    Separates(own, caseSensitive) && own("op") && own("path") && own("from") && own("value")
  }

  /**
   * `patch` writes `op`: an object with these members in any order, and perhaps others, that are ignored; its values
   * have names of the kind `ok`.
   */
  ghost predicate Writes(patch: Json, op: Op, own: string -> bool, ok: string -> bool) {
    && patch.Object? && Distinct(patch.child) && KeysOk(patch.child, own) && ValuesWellFormed(patch.child, ok)
    && forall k :: k in Members(op) ==> k in Fields(patch.child) && Fields(patch.child)[k] == Members(op)[k]
  }

  lemma {:induction false} PlainPointer(path: seq<string>, ok: string -> bool)
    requires Names(ok, true) && PlainPath(path, ok)
    ensures E.PointerString(path) == PathString(path)
  {
    if path != [] {
      assert ok(path[0]);
      PlainEscapes(path[0]);
      PlainPointer(path[1..], ok);
    }
  }

  lemma FieldRead(patch: Json, name: string, own: string -> bool, ok: string -> bool, caseSensitive: bool)
    requires patch.Object? && Distinct(patch.child) && KeysOk(patch.child, own) && ValuesWellFormed(patch.child, ok)
    requires Separates(own, caseSensitive) && own(name)
    ensures FieldOf(patch, name, caseSensitive).Some? <==> name in Fields(patch.child)
    ensures name in Fields(patch.child) ==> var x := FieldOf(patch, name, caseSensitive).value;
      WellFormed(x, ok) && Meaning(x) == Fields(patch.child)[name]
  {
    FindNameIsFindKey(patch.child, name, caseSensitive, own);
    var i := FindKey(patch.child, name);
    if i < Length(patch.child) {
      NthMeaning(patch.child, i, ok);
      FoundKey(patch.child, name);
      FirstCounts(patch.child, name);
    } else {
      MissingKey(patch.child, name);
    }
  }

  lemma {:induction false} FoundKey(ns: Nodes, name: string)
    requires FindKey(ns, name) < Length(ns)
    ensures name in Keys(ns)
  {
    if ns.key != name { FoundKey(ns.next, name); }
  }

  lemma {:induction false} MissingKey(ns: Nodes, name: string)
    requires FindKey(ns, name) == Length(ns)
    ensures name !in Keys(ns)
  {
    if ns.Node? { MissingKey(ns.next, name); }
  }

  lemma MeansString(j: Json, s: string)
    requires Meaning(j) == VStr(s)
    ensures j == Str(s)
  {
  }

  /** A string member is read as that string. */
  lemma StringRead(patch: Json, op: Op, name: string, s: string, own: string -> bool, ok: string -> bool, caseSensitive: bool)
    requires PatchNames(own, caseSensitive) && Writes(patch, op, own, ok) && own(name)
    requires name in Members(op) && Members(op)[name] == VStr(s)
    ensures FieldOf(patch, name, caseSensitive) == Some(Str(s))
  {
    FieldRead(patch, name, own, ok, caseSensitive);
    MeansString(FieldOf(patch, name, caseSensitive).value, s);
  }

  lemma ValueRead(patch: Json, op: Op, own: string -> bool, ok: string -> bool, caseSensitive: bool)
    requires PatchNames(own, caseSensitive) && Writes(patch, op, own, ok) && (op.Add? || op.Replace? || op.Test?)
    ensures HasValue(ReadPatch(patch, caseSensitive), op.value, ok)
  {
    assert "value" in Members(op) && Members(op)["value"] == op.value;
    FieldRead(patch, "value", own, ok, caseSensitive);
  }

  /** The name each operation is written with. */
  function NameOf(op: Op): string {
    match op
    case Add(_, _) => "add"
    case Remove(_) => "remove"
    case Replace(_, _) => "replace"
    case Move(_, _) => "move"
    case Copy(_, _) => "copy"
    case Test(_, _) => "test"
  }

  lemma MemberStrings(op: Op)
    ensures var m := Members(op);
      && "op" in m && m["op"] == VStr(NameOf(op)) && "path" in m && m["path"] == VStr(E.PointerString(op.path))
      && (op.Move? || op.Copy? ==> "from" in m && m["from"] == VStr(E.PointerString(op.from)))
  {
  }

  /** A written operation is read as that operation. */
  lemma WrittenIsRead(patch: Json, op: Op, own: string -> bool, ok: string -> bool, caseSensitive: bool)
    requires PatchNames(own, caseSensitive) && Writes(patch, op, own, ok)
    requires Names(ok, caseSensitive) && PlainPath(op.path, ok) && (op.Move? || op.Copy? ==> PlainPath(op.from, ok))
    ensures Encodes(patch, op, caseSensitive, ok)
  {
    hide Writes, FieldOf, PathString, Names, PatchNames, PlainPath, Members;
    MemberStrings(op);
    NamesEither(ok, caseSensitive);
    PlainPointer(op.path, ok);
    NamesAreOwn(own, caseSensitive);
    StringRead(patch, op, "op", NameOf(op), own, ok, caseSensitive);
    StringRead(patch, op, "path", E.PointerString(op.path), own, ok, caseSensitive);
    if op.Move? || op.Copy? {
      PlainPointer(op.from, ok);
      StringRead(patch, op, "from", E.PointerString(op.from), own, ok, caseSensitive);
    } else if !op.Remove? {
      ValueRead(patch, op, own, ok, caseSensitive);
    }
  }

  lemma NamesAreOwn(own: string -> bool, caseSensitive: bool)
    requires PatchNames(own, caseSensitive)
    ensures own("op") && own("path") && own("from") && own("value")
  {
  }

  /** A writer: the members in the order of the examples in RFC 6902. */
  function Write(op: Op, x: Json): Json {
    match op
    case Add(path, _) => Object(Node("op", Str("add"), Node("path", Str(E.PointerString(path)), Node("value", x, End))))
    case Remove(path) => Object(Node("op", Str("remove"), Node("path", Str(E.PointerString(path)), End)))
    case Replace(path, _) => Object(Node("op", Str("replace"), Node("path", Str(E.PointerString(path)), Node("value", x, End))))
    case Move(from, path) =>
      Object(Node("op", Str("move"), Node("from", Str(E.PointerString(from)), Node("path", Str(E.PointerString(path)), End))))
    case Copy(from, path) =>
      Object(Node("op", Str("copy"), Node("from", Str(E.PointerString(from)), Node("path", Str(E.PointerString(path)), End))))
    case Test(path, _) => Object(Node("op", Str("test"), Node("path", Str(E.PointerString(path)), Node("value", x, End))))
  }

  function OwnNames(): string -> bool { k => k == "op" || k == "path" || k == "from" || k == "value" }

  lemma OwnNamesSeparate(caseSensitive: bool)
    ensures PatchNames(OwnNames(), caseSensitive)
  {
    forall k, l | OwnNames()(k) && OwnNames()(l) ensures AnyKey(k) && (!caseSensitive && SameFolded(k, l) ==> k == l) {
      SameFoldedLower(k, l);
    }
  }

  lemma TwoMembers(a: Json, b: Json, k: string, l: string)
    requires k != l
    ensures var ns := Node(k, a, Node(l, b, End));
      Distinct(ns) && Fields(ns) == map[k := Meaning(a), l := Meaning(b)] && Keys(ns) == {k, l}
  {
    assert Fields(Node(l, b, End)) == map[l := Meaning(b)] && Keys(Node(l, b, End)) == {l};
  }

  lemma ThreeMembers(a: Json, b: Json, c: Json, k: string, l: string, m: string)
    requires k != l && k != m && l != m
    ensures var ns := Node(k, a, Node(l, b, Node(m, c, End)));
      Distinct(ns) && Fields(ns) == map[k := Meaning(a), l := Meaning(b), m := Meaning(c)]
  {
    hide Fields, Distinct, Meaning, Keys;
    var two := Node(l, b, Node(m, c, End));
    TwoMembers(b, c, l, m);
    FirstMember(a, two, k);
    MapThree(k, l, m, Meaning(a), Meaning(b), Meaning(c));
  }

  lemma FirstMember(a: Json, ns: Nodes, k: string)
    requires k !in Keys(ns) && Distinct(ns)
    ensures Distinct(Node(k, a, ns)) && Fields(Node(k, a, ns)) == Fields(ns)[k := Meaning(a)]
  {
  }

  lemma MapThree(k: string, l: string, m: string, x: Value, y: Value, z: Value)
    requires k != l && k != m && l != m
    ensures map[l := y, m := z][k := x] == map[k := x, l := y, m := z]
  {
  }

  lemma Differ()
    ensures "op" != "path" && "op" != "from" && "op" != "value" && "path" != "from" && "path" != "value"
  {
    assert "op"[0] != "path"[0] && "op"[0] != "from"[0] && "op"[0] != "value"[0];
    assert "path"[0] != "from"[0] && "path"[0] != "value"[0];
  }

  lemma WrittenFields(op: Op, x: Json)
    requires op.Add? || op.Replace? || op.Test? ==> Meaning(x) == op.value
    ensures Write(op, x).Object? && Distinct(Write(op, x).child) && Fields(Write(op, x).child) == Members(op)
  {
    Differ();
    var p := Str(E.PointerString(op.path));
    match op
    case Remove(_) => TwoMembers(Str("remove"), p, "op", "path");
    case Move(from, _) => ThreeMembers(Str("move"), Str(E.PointerString(from)), p, "op", "from", "path");
    case Copy(from, _) => ThreeMembers(Str("copy"), Str(E.PointerString(from)), p, "op", "from", "path");
    case Add(_, _) => ThreeMembers(Str("add"), p, x, "op", "path", "value");
    case Replace(_, _) => ThreeMembers(Str("replace"), p, x, "op", "path", "value");
    case Test(_, _) => ThreeMembers(Str("test"), p, x, "op", "path", "value");
  }

  /** What the writer writes, with its members in any order, writes the operation. */
  lemma WriterWrites(op: Op, x: Json, ns: Nodes, ok: string -> bool)
    requires WellFormed(x, ok) && (op.Add? || op.Replace? || op.Test? ==> Meaning(x) == op.value)
    requires multiset(ToSeq(ns)) == multiset(ToSeq(Write(op, x).child))
    ensures Writes(Object(ns), op, OwnNames(), ok)
  {
    hide Fields, Distinct, Members;
    var written := Write(op, x).child;
    WrittenFields(op, x);
    WrittenNames(op, x, ok);
    PermutationMeaning(written, ToSeq(ns), OwnNames());
    PermutationMeaning(written, ToSeq(ns), ok);
    FromToSeq(ns);
  }

  lemma WrittenNames(op: Op, x: Json, ok: string -> bool)
    requires WellFormed(x, ok)
    ensures KeysOk(Write(op, x).child, OwnNames()) && ValuesWellFormed(Write(op, x).child, ok)
  {
    var p := Str(E.PointerString(op.path));
    assert KeysOk(End, OwnNames()) && ValuesWellFormed(End, ok);
    match op
    case Remove(_) =>
      assert KeysOk(Node("path", p, End), OwnNames()) && ValuesWellFormed(Node("path", p, End), ok);
    case Move(_, _) => FromPathOk(Write(op, x).child.next, ok);
    case Copy(_, _) => FromPathOk(Write(op, x).child.next, ok);
    case _ =>
      assert KeysOk(Node("value", x, End), OwnNames()) && ValuesWellFormed(Node("value", x, End), ok);
      var two := Node("path", p, Node("value", x, End));
      assert KeysOk(two, OwnNames()) && ValuesWellFormed(two, ok);
  }

  lemma FromPathOk(ns: Nodes, ok: string -> bool)
    requires ns.Node? && ns.key == "from" && ns.value.Str? && ns.next.Node? && ns.next.key == "path" && ns.next.value.Str?
    requires ns.next.next.End?
    ensures KeysOk(ns, OwnNames()) && ValuesWellFormed(ns, ok)
  {
    assert KeysOk(ns.next.next, OwnNames()) && ValuesWellFormed(ns.next.next, ok);
    assert KeysOk(ns.next, OwnNames()) && ValuesWellFormed(ns.next, ok);
  }

  /** Applying a written operation is what the RFC says, unless it breaks. */
  lemma WrittenApplies(t: Tree, patch: Json, op: Op, own: string -> bool, caseSensitive: bool, ok: string -> bool)
    requires PatchNames(own, caseSensitive) && Writes(patch, op, own, ok)
    requires Names(ok, caseSensitive) && PlainPath(op.path, ok) && (op.Move? || op.Copy? ==> PlainPath(op.from, ok))
    requires Sound(t) && WellFormed(t.doc, ok) && Fair(t.doc, op, caseSensitive, ok)
    requires Run(Meaning(t.doc), op).Some? && (op.Move? || op.Copy? ==> op.path != [])
    ensures match L.Apply(t, patch, caseSensitive)
      case Broken => L.Breaks(t, op, caseSensitive)
      case Ends(status, t') =>
        && !L.Breaks(t, op, caseSensitive) && Sound(t')
        && status == 0 && WellFormed(t'.doc, ok) && Meaning(t'.doc) == Run(Meaning(t.doc), op).value
  {
    hide Writes, WellFormed, Meaning, Run, Names, PatchNames, PlainPath, Fair, Encodes;
    WrittenIsRead(patch, op, own, ok, caseSensitive);
    L.ApplyImplementsRfc(t, patch, op, caseSensitive, ok);
  }

  /** Each patch of a list writes the operation that stands at its place. */
  ghost predicate WritesAll(patches: Nodes, ops: Ops, own: string -> bool, ok: string -> bool)
    decreases patches
  {
    match (patches, ops)
    case (End, Done) => true
    case (Node(_, patch, rest), Do(op, more)) =>
      && Writes(patch, op, own, ok) && PlainPath(op.path, ok) && (op.Move? || op.Copy? ==> PlainPath(op.from, ok))
      && WritesAll(rest, more, own, ok)
    case _ => false
  }

  lemma {:induction false} WrittenListIsRead(patches: Nodes, ops: Ops, own: string -> bool, ok: string -> bool, caseSensitive: bool)
    requires PatchNames(own, caseSensitive) && Names(ok, caseSensitive) && WritesAll(patches, ops, own, ok)
    ensures EncodesAll(patches, ops, caseSensitive, ok)
    decreases patches
  {
    hide Writes, Encodes, PlainPath, Names, PatchNames;
    if patches.Node? {
      WrittenIsRead(patches.value, ops.op, own, ok, caseSensitive);
      WrittenListIsRead(patches.next, ops.rest, own, ok, caseSensitive);
    }
  }

  /** A written list of operations that the RFC allows is carried out as the RFC says, unless one of them breaks. */
  lemma WrittenListApplies(t: Tree, patches: Nodes, ops: Ops, own: string -> bool, caseSensitive: bool, ok: string -> bool)
    requires PatchNames(own, caseSensitive) && Plain(ok) && WritesAll(patches, ops, own, ok)
    requires Sound(t) && WellFormed(t.doc, ok) && RunAll(Meaning(t.doc), ops).Some? && L.NoRootTargets(ops)
    ensures match L.ApplyList(t, patches, caseSensitive)
      case Broken => true
      case Ends(status, t') => status == 0 && WellFormed(t'.doc, ok) && Meaning(t'.doc) == RunAll(Meaning(t.doc), ops).value
  {
    hide WritesAll, WellFormed, Meaning, RunAll, Plain, PatchNames, EncodesAll;
    PlainNames(ok, caseSensitive);
    WrittenListIsRead(patches, ops, own, ok, caseSensitive);
    L.ListImplementsRfc(t, patches, ops, caseSensitive, ok);
  }

  // ---------- patches that write no operation ----------

  predicate OperationName(s: string) {
    s == "add" || s == "remove" || s == "replace" || s == "move" || s == "copy" || s == "test"
  }

  /** Without a string path the status is 2; with one, and no operation of these names, it is 3. The document stays. */
  lemma NoOperation(t: Tree, patch: Json, own: string -> bool, ok: string -> bool, caseSensitive: bool)
    requires Sound(t) && PatchNames(own, caseSensitive) && patch.Object? && Distinct(patch.child)
    requires KeysOk(patch.child, own) && ValuesWellFormed(patch.child, ok)
    ensures var fields := Fields(patch.child);
      var hasPath := "path" in fields && fields["path"].VStr?;
      var named := "op" in fields && fields["op"].VStr? && OperationName(fields["op"].text);
      && (!hasPath ==> L.Apply(t, patch, caseSensitive) == L.Ends(2, t))
      && (hasPath && !named ==> L.Apply(t, patch, caseSensitive) == L.Ends(3, t))
      && (hasPath && named ==> L.Apply(t, patch, caseSensitive).Broken? || L.Apply(t, patch, caseSensitive).status !in {2, 3})
  {
    hide Fields, FieldOf, Distinct, KeysOk, ValuesWellFormed, OperationName, Sound, Separates;
    FieldRead(patch, "path", own, ok, caseSensitive);
    FieldRead(patch, "op", own, ok, caseSensitive);
    var r, path, op := ReadPatch(patch, caseSensitive), FieldOf(patch, "path", caseSensitive), FieldOf(patch, "op", caseSensitive);
    if path.Some? { StringOrNot(path.value); }
    if op.Some? { StringOrNot(op.value); }
    NamedIff(patch, caseSensitive);
    StatusIff(t, r, caseSensitive);
  }

  lemma StringOrNot(j: Json)
    ensures j.Str? <==> Meaning(j).VStr?
    ensures j.Str? ==> Meaning(j) == VStr(j.text)
  {
  }

  lemma NamedIff(patch: Json, caseSensitive: bool)
    ensures var op := FieldOf(patch, "op", caseSensitive);
      DecodeOperation(patch, caseSensitive) == INVALID <==> !(op.Some? && op.value.Str? && OperationName(op.value.text))
  {
    hide FieldOf;
  }

  lemma StatusIff(t: Tree, r: Request, caseSensitive: bool)
    requires Sound(t)
    ensures var e, readable := L.Act(t, r, caseSensitive), r.path.Some? && r.path.value.Str?;
      && (!readable ==> e == L.Ends(2, t))
      && (readable && r.opcode == INVALID ==> e == L.Ends(3, t))
      && (readable && r.opcode != INVALID ==> e.Broken? || e.status !in {2, 3})
  {
    hide Sound, AddPath, DetachPath, GetItem, ApplyTest;
    if r.path.Some? && r.path.value.Str? && r.opcode != INVALID && L.Act(t, r, caseSensitive).Ends? {
      StatusMeans(t.doc, r, r.path.value.text, caseSensitive);
    }
  }

  /** A patch that is no object has no path. */
  lemma NoObject(t: Tree, patch: Json, caseSensitive: bool)
    requires Sound(t) && !patch.Object?
    ensures L.Apply(t, patch, caseSensitive) == L.Ends(2, t)
  {
  }
}
