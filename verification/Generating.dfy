/** Generating a JSON patch from two trees; applying it to the first gives the second. */
module Generating {
  import opened Basics
  import opened CStrings
  import opened JsonModel
  import opened Pointers
  import opened Comparing
  import opened Rfc6902
  import opened Patching

  // ---------- create_patches ----------

  function FullPath(path: string, suffix: Option<string>, memory: Memory): string {
    match suffix
    case None => path
    case Some(s) => path + "/" + Escaped(s, memory)
  }

  /** compose_patch: the new patch object. */
  function Compose(op: string, path: string, suffix: Option<string>, value: Option<Json>, memory: Memory): Json {
    Object(Node("op", Str(op), Node("path", Str(FullPath(path, suffix, memory)),
                                    if value.None? then End else Node("value", value.value, End))))
  }

  function One(patch: Json): Nodes { Node("", patch, End) }

  /** The patches that turn `from` into `to`, in the order they are appended. */
  function Patches(path: string, from: Json, to: Json, caseSensitive: bool, memory: Memory): Nodes
    decreases Size(from) + Size(to), 0
  {
    if !SameType(from, to) then One(Compose("replace", path, None, Some(to), memory))
    else
      match from
      case Number(n) => if n != to.num then One(Compose("replace", path, None, Some(to), memory)) else End
      case Str(s) => if s != to.text then One(Compose("replace", path, None, Some(to), memory)) else End
      case Array(ns) => ItemPatches(path, 0, ns, to.child, caseSensitive, memory)
      case Object(ns) =>
        SortSize(ns, caseSensitive);
        SortSize(to.child, caseSensitive);
        MemberPatches(path, SortNodes(ns, caseSensitive), SortNodes(to.child, caseSensitive), caseSensitive, memory)
      case _ => End
  }

  /** Common elements first; then removals, all at one index, or additions at the end. */
  function ItemPatches(path: string, index: nat, f: Nodes, t: Nodes, caseSensitive: bool, memory: Memory): Nodes
    decreases ChainSize(f) + ChainSize(t), 1
  {
    if f.Node? && t.Node? then
      Concat(Patches(path + "/" + Decimal(index), f.value, t.value, caseSensitive, memory),
             ItemPatches(path, index + 1, f.next, t.next, caseSensitive, memory))
    else if f.Node? then
      Node("", Compose("remove", path, Some(Decimal(index)), None, memory),
           ItemPatches(path, index, f.next, t, caseSensitive, memory))
    else if t.Node? then
      Node("", Compose("add", path, Some("-"), Some(t.value), memory),
           ItemPatches(path, index + 1, f, t.next, caseSensitive, memory))
    else End
  }

  /** The sign that decides which of two sorted chains moves on; a chain that has ended counts as the larger. */
  function Difference(f: Nodes, t: Nodes, caseSensitive: bool): int
    requires f.Node? || t.Node?
  {
    if f.End? then 1 else if t.End? then -1 else CompareStrings(f.key, t.key, caseSensitive)
  }

  function MemberPatches(path: string, f: Nodes, t: Nodes, caseSensitive: bool, memory: Memory): Nodes
    decreases ChainSize(f) + ChainSize(t), 1
  {
    if f.End? && t.End? then End
    else
      var diff := Difference(f, t, caseSensitive);
      if diff == 0 then
        Concat(Patches(path + "/" + Escaped(f.key, memory), f.value, t.value, caseSensitive, memory),
               MemberPatches(path, f.next, t.next, caseSensitive, memory))
      else if diff < 0 && f.Node? then
        Node("", Compose("remove", path, Some(f.key), None, memory),
             MemberPatches(path, f.next, t, caseSensitive, memory))
      else if t.Node? then
        Node("", Compose("add", path, Some(t.key), Some(t.value), memory),
             MemberPatches(path, f, t.next, caseSensitive, memory))
      else End
  }

  // ---------- when there is nothing to do ----------

  lemma ConcatNothing(a: Nodes, b: Nodes)
    ensures Concat(a, b) == End <==> a == End && b == End
  {
  }

  /** Two trees give no patch exactly if compare_json takes them for the same. */
  lemma {:induction false} NoPatchIff(path: string, from: Json, to: Json, caseSensitive: bool, memory: Memory)
    ensures Patches(path, from, to, caseSensitive, memory) == End <==> CompareJson(from, to, caseSensitive).same
    decreases Size(from) + Size(to), 0
  {
    hide Compose;
    if SameType(from, to) {
      match from
      case Array(ns) => NoItemPatchIff(path, 0, ns, to.child, caseSensitive, memory);
      case Object(ns) =>
        SortSize(ns, caseSensitive);
        SortSize(to.child, caseSensitive);
        NoMemberPatchIff(path, SortNodes(ns, caseSensitive), SortNodes(to.child, caseSensitive), caseSensitive, memory);
      case _ =>
    }
  }

  lemma {:induction false} NoItemPatchIff(path: string, index: nat, f: Nodes, t: Nodes, caseSensitive: bool, memory: Memory)
    ensures ItemPatches(path, index, f, t, caseSensitive, memory) == End <==> CompareNodes(f, t, false, caseSensitive).same
    decreases ChainSize(f) + ChainSize(t), 1
  {
    hide Patches, CompareJson, Compose, Decimal;
    if f.Node? && t.Node? {
      NoPatchIff(path + "/" + Decimal(index), f.value, t.value, caseSensitive, memory);
      NoItemPatchIff(path, index + 1, f.next, t.next, caseSensitive, memory);
      ConcatNothing(Patches(path + "/" + Decimal(index), f.value, t.value, caseSensitive, memory),
                    ItemPatches(path, index + 1, f.next, t.next, caseSensitive, memory));
    }
  }

  lemma {:induction false} NoMemberPatchIff(path: string, f: Nodes, t: Nodes, caseSensitive: bool, memory: Memory)
    ensures MemberPatches(path, f, t, caseSensitive, memory) == End <==> CompareNodes(f, t, true, caseSensitive).same
    decreases ChainSize(f) + ChainSize(t), 1
  {
    hide Patches, CompareJson, Compose, CompareStrings, Escaped;
    if f.Node? && t.Node? && CompareStrings(f.key, t.key, caseSensitive) == 0 {
      NoPatchIff(path + "/" + Escaped(f.key, memory), f.value, t.value, caseSensitive, memory);
      NoMemberPatchIff(path, f.next, t.next, caseSensitive, memory);
      ConcatNothing(Patches(path + "/" + Escaped(f.key, memory), f.value, t.value, caseSensitive, memory),
                    MemberPatches(path, f.next, t.next, caseSensitive, memory));
    }
  }

  /** Trees of one meaning, and no others, give no patch. */
  lemma NoPatchMeans(path: string, from: Json, to: Json, caseSensitive: bool, memory: Memory, ok: string -> bool)
    requires Agreeing(ok) && WellFormed(from, ok) && WellFormed(to, ok)
    ensures Patches(path, from, to, caseSensitive, memory) == End <==> Meaning(from) == Meaning(to)
  {
    hide Patches, CompareJson, Meaning, WellFormed, Agreeing;
    NoPatchIff(path, from, to, caseSensitive, memory);
    CompareJsonMeans(from, to, caseSensitive, ok);
  }

  // ---------- the same patches as RFC operations ----------

  function Single(op: Op): Ops { Do(op, Done) }

  function Plan(path: seq<string>, from: Json, to: Json): Ops
    decreases Size(from) + Size(to), 0
  {
    if !SameType(from, to) then Single(Replace(path, Meaning(to)))
    else
      match from
      case Number(n) => if n != to.num then Single(Replace(path, Meaning(to))) else Done
      case Str(s) => if s != to.text then Single(Replace(path, Meaning(to))) else Done
      case Array(ns) => PlanItems(path, 0, ns, to.child)
      case Object(ns) =>
        SortSize(ns, false);
        SortSize(to.child, false);
        PlanMembers(path, SortNodes(ns, false), SortNodes(to.child, false))
      case _ => Done
  }

  function PlanItems(path: seq<string>, index: nat, f: Nodes, t: Nodes): Ops
    decreases ChainSize(f) + ChainSize(t), 1
  {
    if f.Node? && t.Node? then
      Join(Plan(path + [Decimal(index)], f.value, t.value), PlanItems(path, index + 1, f.next, t.next))
    else if f.Node? then Do(Remove(path + [Decimal(index)]), PlanItems(path, index, f.next, t))
    else if t.Node? then Do(Add(path + ["-"], Meaning(t.value)), PlanItems(path, index + 1, f, t.next))
    else Done
  }

  function PlanMembers(path: seq<string>, f: Nodes, t: Nodes): Ops
    decreases ChainSize(f) + ChainSize(t), 1
  {
    if f.End? && t.End? then Done
    else if f.Node? && t.Node? && f.key == t.key then
      Join(Plan(path + [f.key], f.value, t.value), PlanMembers(path, f.next, t.next))
    else if f.Node? && (t.End? || Before(f.key, t.key)) then
      Do(Remove(path + [f.key]), PlanMembers(path, f.next, t))
    else if t.Node? then Do(Add(path + [t.key], Meaning(t.value)), PlanMembers(path, f, t.next))
    else Done
  }

  ghost predicate EncodesAll(patches: Nodes, ops: Ops, caseSensitive: bool, ok: string -> bool)
    decreases patches
  {
    match (patches, ops)
    case (End, Done) => true
    case (Node(_, patch, rest), Do(op, more)) => Encodes(patch, op, caseSensitive, ok) && EncodesAll(rest, more, caseSensitive, ok)
    case _ => false
  }

  lemma {:induction false} EncodesConcat(a: Nodes, b: Nodes, x: Ops, y: Ops, caseSensitive: bool, ok: string -> bool)
    requires Plain(ok)
    requires EncodesAll(a, x, caseSensitive, ok) && EncodesAll(b, y, caseSensitive, ok)
    ensures EncodesAll(Concat(a, b), Join(x, y), caseSensitive, ok)
    decreases a
  {
    if a.Node? { EncodesConcat(a.next, b, x.rest, y, caseSensitive, ok); }
  }

  lemma NamesDiffer(caseSensitive: bool)
    ensures CompareStrings("op", "path", caseSensitive) != 0 && CompareStrings("op", "value", caseSensitive) != 0
    ensures CompareStrings("path", "op", caseSensitive) != 0 && CompareStrings("path", "value", caseSensitive) != 0
    ensures CompareStrings("value", "op", caseSensitive) != 0 && CompareStrings("value", "path", caseSensitive) != 0
    ensures CompareStrings("op", "op", caseSensitive) == 0
    ensures CompareStrings("path", "path", caseSensitive) == 0
    ensures CompareStrings("value", "value", caseSensitive) == 0
  {
    assert First("op", caseSensitive) == 'o' as nat;
    assert First("path", caseSensitive) == 'p' as nat;
    assert First("value", caseSensitive) == 'v' as nat;
    CompareLowerZero("op", "op", caseSensitive);
    CompareLowerZero("path", "path", caseSensitive);
    CompareLowerZero("value", "value", caseSensitive);
  }

  /** The fields of a composed patch are found again. */
  lemma ReadComposed(op: string, path: string, suffix: Option<string>, value: Option<Json>, memory: Memory, caseSensitive: bool)
    ensures var patch := Compose(op, path, suffix, value, memory);
            && FieldOf(patch, "op", caseSensitive) == Some(Str(op))
            && FieldOf(patch, "path", caseSensitive) == Some(Str(FullPath(path, suffix, memory)))
            && FieldOf(patch, "value", caseSensitive) == value
  {
    FieldsFound(Str(op), Str(FullPath(path, suffix, memory)), value, caseSensitive);
  }

  lemma FieldsFound(op: Json, path: Json, value: Option<Json>, caseSensitive: bool)
    ensures var patch := Object(Node("op", op, Node("path", path, if value.None? then End else Node("value", value.value, End))));
            && FieldOf(patch, "op", caseSensitive) == Some(op)
            && FieldOf(patch, "path", caseSensitive) == Some(path)
            && FieldOf(patch, "value", caseSensitive) == value
  {
    NamesDiffer(caseSensitive);
    var last := if value.None? then End else Node("value", value.value, End);
    var two := Node("path", path, last);
    var ns := Node("op", op, two);
    assert FindName(ns, "op", caseSensitive) == 0;
    assert FindName(ns, "path", caseSensitive) == 1 by { assert FindName(two, "path", caseSensitive) == 0; }
    assert FindName(ns, "value", caseSensitive) == 2 by {
      assert FindName(last, "value", caseSensitive) == 0;
      assert FindName(two, "value", caseSensitive) == 1;
    }
    assert Length(ns) == 2 + Length(last) by { assert Length(two) == 1 + Length(last); }
    assert Nth(ns, 1) == Nth(two, 0) == path;
    if value.Some? { assert Nth(ns, 2) == Nth(two, 1) == Nth(last, 0) == value.value; }
  }

  lemma ComposedIs(op: string, path: string, suffix: Option<string>, value: Option<Json>, memory: Memory, caseSensitive: bool, code: Opcode)
    requires (op == "add" && code == ADD) || (op == "remove" && code == REMOVE) || (op == "replace" && code == REPLACE)
    ensures var r := ReadPatch(Compose(op, path, suffix, value, memory), caseSensitive);
            r.path == Some(Str(FullPath(path, suffix, memory))) && r.opcode == code && r.value == value
  {
    ReadComposed(op, path, suffix, value, memory, caseSensitive);
  }

  /** A patch for the child `token` of the node at `path`. */
  lemma ComposedBelow(path: seq<string>, token: string, memory: Memory, ok: string -> bool)
    requires Plain(ok)
    requires PlainPath(path, ok) && ok(token)
    ensures FullPath(PathString(path), Some(token), memory) == PathString(path + [token])
    ensures PathString(path) + "/" + Escaped(token, memory) == PathString(path + [token])
    ensures PlainPath(path + [token], ok)
  {
    PathStringSnoc(path, token);
    PlainEscaped(token, memory);
  }

  lemma DecimalIsPlain(n: nat, ok: string -> bool)
    requires Plain(ok)
    ensures ok(Decimal(n))
  {
  }

  lemma EncodesReplace(path: seq<string>, to: Json, caseSensitive: bool, memory: Memory, ok: string -> bool)
    requires Plain(ok)
    requires PlainPath(path, ok) && WellFormed(to, ok)
    ensures Encodes(Compose("replace", PathString(path), None, Some(to), memory), Replace(path, Meaning(to)), caseSensitive, ok)
  {
    ComposedIs("replace", PathString(path), None, Some(to), memory, caseSensitive, REPLACE);
  }

  lemma EncodesAdd(path: seq<string>, token: string, to: Json, caseSensitive: bool, memory: Memory, ok: string -> bool)
    requires Plain(ok)
    requires PlainPath(path, ok) && ok(token) && WellFormed(to, ok)
    ensures Encodes(Compose("add", PathString(path), Some(token), Some(to), memory), Add(path + [token], Meaning(to)), caseSensitive, ok)
  {
    ComposedIs("add", PathString(path), Some(token), Some(to), memory, caseSensitive, ADD);
    ComposedBelow(path, token, memory, ok);
  }

  lemma EncodesRemove(path: seq<string>, token: string, caseSensitive: bool, memory: Memory, ok: string -> bool)
    requires Plain(ok)
    requires PlainPath(path, ok) && ok(token)
    ensures Encodes(Compose("remove", PathString(path), Some(token), None, memory), Remove(path + [token]), caseSensitive, ok)
  {
    ComposedIs("remove", PathString(path), Some(token), None, memory, caseSensitive, REMOVE);
    ComposedBelow(path, token, memory, ok);
  }

  /** The generated patches are the plan, written as JSON. */
  lemma {:induction false} PatchesEncodePlan(path: seq<string>, from: Json, to: Json, caseSensitive: bool, memory: Memory, ok: string -> bool)
    requires Plain(ok)
    requires PlainPath(path, ok) && WellFormed(from, ok) && WellFormed(to, ok)
    ensures EncodesAll(Patches(PathString(path), from, to, caseSensitive, memory), Plan(path, from, to), caseSensitive, ok)
    decreases Size(from) + Size(to), 0
  {
    EncodesReplace(path, to, caseSensitive, memory, ok);
    if SameType(from, to) {
      match from
      case Array(ns) => ItemPatchesEncode(path, 0, ns, to.child, caseSensitive, memory, ok);
      case Object(ns) =>
        SortSize(ns, false);
        SortSize(to.child, false);
        SortedNodes(ns, caseSensitive, ok);
        SortedNodes(to.child, caseSensitive, ok);
        MemberPatchesEncode(path, SortNodes(ns, false), SortNodes(to.child, false), caseSensitive, memory, ok);
      case _ =>
    }
  }

  lemma {:induction false} ChildPatchesEncode(path: seq<string>, token: string, from: Json, to: Json, caseSensitive: bool, memory: Memory, ok: string -> bool)
    requires Plain(ok)
    requires PlainPath(path, ok) && ok(token) && WellFormed(from, ok) && WellFormed(to, ok)
    ensures EncodesAll(Patches(PathString(path) + "/" + token, from, to, caseSensitive, memory),
                       Plan(path + [token], from, to), caseSensitive, ok)
    decreases Size(from) + Size(to), 1
  {
    PathStringSnoc(path, token);
    PatchesEncodePlan(path + [token], from, to, caseSensitive, memory, ok);
  }

  lemma {:induction false} ItemPatchesEncode(path: seq<string>, index: nat, f: Nodes, t: Nodes, caseSensitive: bool, memory: Memory, ok: string -> bool)
    requires Plain(ok)
    requires PlainPath(path, ok) && ValuesWellFormed(f, ok) && ValuesWellFormed(t, ok)
    ensures EncodesAll(ItemPatches(PathString(path), index, f, t, caseSensitive, memory), PlanItems(path, index, f, t), caseSensitive, ok)
    decreases ChainSize(f) + ChainSize(t), 3
  {
    hide Encodes, Compose, PathString, Decimal, Plan, Patches, Meaning, WellFormed;
    DecimalIsPlain(index, ok);
    if f.Node? && t.Node? {
      CommonItemEncodes(path, index, f, t, caseSensitive, memory, ok);
    } else if f.Node? {
      EncodesRemove(path, Decimal(index), caseSensitive, memory, ok);
      ItemPatchesEncode(path, index, f.next, t, caseSensitive, memory, ok);
    } else if t.Node? {
      EncodesAdd(path, "-", t.value, caseSensitive, memory, ok);
      ItemPatchesEncode(path, index + 1, f, t.next, caseSensitive, memory, ok);
    }
  }

  lemma {:induction false} CommonItemEncodes(path: seq<string>, index: nat, f: Nodes, t: Nodes, caseSensitive: bool, memory: Memory, ok: string -> bool)
    requires Plain(ok)
    requires PlainPath(path, ok) && ValuesWellFormed(f, ok) && ValuesWellFormed(t, ok)
    requires f.Node? && t.Node? && ok(Decimal(index))
    ensures EncodesAll(ItemPatches(PathString(path), index, f, t, caseSensitive, memory), PlanItems(path, index, f, t), caseSensitive, ok)
    decreases ChainSize(f) + ChainSize(t), 2
  {
    hide Encodes, Compose, PathString, Decimal, Plan, Patches, Meaning, WellFormed;
    var s, token := PathString(path), Decimal(index);
    ChildPatchesEncode(path, token, f.value, t.value, caseSensitive, memory, ok);
    ItemPatchesEncode(path, index + 1, f.next, t.next, caseSensitive, memory, ok);
    EncodesConcat(Patches(s + "/" + token, f.value, t.value, caseSensitive, memory),
                  ItemPatches(s, index + 1, f.next, t.next, caseSensitive, memory),
                  Plan(path + [token], f.value, t.value), PlanItems(path, index + 1, f.next, t.next), caseSensitive, ok);
  }

  lemma {:induction false} MemberPatchesEncode(path: seq<string>, f: Nodes, t: Nodes, caseSensitive: bool, memory: Memory, ok: string -> bool)
    requires Plain(ok)
    requires PlainPath(path, ok) && ValuesWellFormed(f, ok) && ValuesWellFormed(t, ok)
    requires KeysOk(f, ok) && KeysOk(t, ok)
    ensures EncodesAll(MemberPatches(PathString(path), f, t, caseSensitive, memory), PlanMembers(path, f, t), caseSensitive, ok)
    decreases ChainSize(f) + ChainSize(t), 2
  {
    hide Encodes, Compose, PathString, Plan, Patches, Meaning, WellFormed, CompareStrings, Escaped, Plain, PlainPath;
    var s := PathString(path);
    if f.Node? && t.Node? { KeysCompare(f.key, t.key, caseSensitive, ok); }
    if f.Node? && t.Node? && f.key == t.key {
      KeyEscaped(f.key, memory, ok);
      ChildPatchesEncode(path, f.key, f.value, t.value, caseSensitive, memory, ok);
      MemberPatchesEncode(path, f.next, t.next, caseSensitive, memory, ok);
      EncodesConcat(Patches(s + "/" + f.key, f.value, t.value, caseSensitive, memory),
                    MemberPatches(s, f.next, t.next, caseSensitive, memory),
                    Plan(path + [f.key], f.value, t.value), PlanMembers(path, f.next, t.next), caseSensitive, ok);
    } else if f.Node? && (t.End? || Before(f.key, t.key)) {
      EncodesRemove(path, f.key, caseSensitive, memory, ok);
      MemberPatchesEncode(path, f.next, t, caseSensitive, memory, ok);
    } else if t.Node? {
      EncodesAdd(path, t.key, t.value, caseSensitive, memory, ok);
      MemberPatchesEncode(path, f, t.next, caseSensitive, memory, ok);
    }
  }

  lemma KeysCompare(k: string, l: string, caseSensitive: bool, ok: string -> bool)
    requires Plain(ok) && ok(k) && ok(l)
    ensures CompareStrings(k, l, caseSensitive) < 0 <==> Before(k, l)
    ensures CompareStrings(k, l, caseSensitive) == 0 <==> k == l
  {
    CompareAgreeing(k, l, caseSensitive, ok);
    assert Agree(k, l);
  }

  lemma KeyEscaped(k: string, memory: Memory, ok: string -> bool)
    requires Plain(ok) && ok(k)
    ensures Escaped(k, memory) == k
  {
    PlainEscaped(k, memory);
  }

  // ---------- running the plan ----------

  /** Where `from`'s meaning stands at `path`, the plan puts `to`'s meaning and changes nothing else. */
  lemma {:induction false} PlanRuns(v: Value, path: seq<string>, from: Json, to: Json, ok: string -> bool)
    requires Plain(ok)
    requires WellFormed(from, ok) && WellFormed(to, ok)
    requires Lookup(v, path) == Some(Meaning(from))
    ensures RunAll(v, Plan(path, from, to)) == Some(With(v, path, Meaning(to)))
    decreases Size(from) + Size(to), 0
  {
    if SameType(from, to) && from.Array? {
      ArrayPlanRuns(v, path, from.child, to.child, ok);
    } else if SameType(from, to) && from.Object? {
      ObjectPlanRuns(v, path, from.child, to.child, ok);
    } else {
      WithSame(v, path);
    }
  }

  lemma {:induction false} ArrayPlanRuns(v: Value, path: seq<string>, f: Nodes, t: Nodes, ok: string -> bool)
    requires Plain(ok)
    requires ValuesWellFormed(f, ok) && ValuesWellFormed(t, ok)
    requires Lookup(v, path) == Some(VArray(Items(f)))
    ensures RunAll(v, PlanItems(path, 0, f, t)) == Some(With(v, path, VArray(Items(t))))
    decreases ChainSize(f) + ChainSize(t), 3
  {
    HoldsFirst(v, path);
    assert Items(f) == [] + Items(f) && Items(t) == [] + Items(t);
    ItemPlanRuns(v, v, path, [], f, t, ok);
  }

  lemma {:induction false} ObjectPlanRuns(v: Value, path: seq<string>, f: Nodes, t: Nodes, ok: string -> bool)
    requires Plain(ok)
    requires WellFormed(Object(f), ok) && WellFormed(Object(t), ok)
    requires Lookup(v, path) == Some(VObject(Fields(f)))
    ensures RunAll(v, PlanMembers(path, SortNodes(f, false), SortNodes(t, false))) == Some(With(v, path, VObject(Fields(t))))
    decreases ChainSize(f) + ChainSize(t), 3
  {
    SortSize(f, false);
    SortSize(t, false);
    SortedNodes(f, false, ok);
    SortedNodes(t, false, ok);
    HoldsFirst(v, path);
    MemberPlanRuns(v, v, path, Fields(f), SortNodes(f, false), SortNodes(t, false), ok);
    AllExchanged(Fields(f), Fields(t));
  }

  lemma AllExchanged(m: map<string, Value>, n: map<string, Value>)
    ensures (m - m.Keys) + n == n
  {
  }

  ghost predicate Reaches(r: Option<Value>, base: Value, path: seq<string>, cur: Value) {
    Lookup(base, path).Some? && r == Some(With(base, path, cur))
  }

  lemma JoinReaches(v: Value, a: Ops, v': Value, b: Ops, base: Value, path: seq<string>, cur: Value)
    requires RunAll(v, a) == Some(v') && Reaches(RunAll(v', b), base, path, cur)
    ensures Reaches(RunAll(v, Join(a, b)), base, path, cur)
  {
    RunJoin(v, a, b);
  }

  lemma DoReaches(v: Value, op: Op, v': Value, rest: Ops, base: Value, path: seq<string>, cur: Value)
    requires Run(v, op) == Some(v') && Reaches(RunAll(v', rest), base, path, cur)
    ensures Reaches(RunAll(v, Do(op, rest)), base, path, cur)
  {
  }

  /** Rewriting the next element of an array. */
  lemma ItemRewritten(v: Value, base: Value, path: seq<string>, done: seq<Value>, x: Value, y: Value, rest: seq<Value>, token: string)
    requires IsIndex(token) && NumberOf(token) == |done|
    requires Holds(v, base, path, VArray(done + [x] + rest))
    ensures Lookup(v, path + [token]) == Some(x)
    ensures Holds(With(v, path + [token], y), base, path, VArray(done + [y] + rest))
  {
    var s := done + [x] + rest;
    assert s[|done| := y] == done + [y] + rest;
    LookupSnoc(v, path, token);
    HoldsUp(v, With(v, path + [token], y), base, path, VArray(s), token, y);
  }

  /** Removing the next element of an array. */
  lemma ItemRemoved(v: Value, base: Value, path: seq<string>, done: seq<Value>, x: Value, rest: seq<Value>, token: string) returns (v': Value)
    requires IsIndex(token) && NumberOf(token) == |done|
    requires Holds(v, base, path, VArray(done + [x] + rest))
    ensures Run(v, Remove(path + [token])) == Some(v') && Holds(v', base, path, VArray(done + rest))
  {
    var s := done + [x] + rest;
    assert s[..|done|] + s[|done| + 1..] == done + rest;
    v' := RunRemove(v, base, path, VArray(s), token, VArray(done + rest));
  }

  /** Elements of `done` are rewritten, the rest still is `f`'s. */
  lemma {:induction false} ItemPlanRuns(v: Value, base: Value, path: seq<string>, done: seq<Value>, f: Nodes, t: Nodes, ok: string -> bool)
    requires Plain(ok)
    requires ValuesWellFormed(f, ok) && ValuesWellFormed(t, ok)
    requires Holds(v, base, path, VArray(done + Items(f)))
    ensures Reaches(RunAll(v, PlanItems(path, |done|, f, t)), base, path, VArray(done + Items(t)))
    decreases ChainSize(f) + ChainSize(t), 2
  {
    hide Decimal, NumberOf, Run, Join, Plan, WellFormed;
    if f.Node? && t.Node? {
      ItemsMeet(v, base, path, done, f, t, ok);
    } else if f.Node? {
      assert done + Items(f) == done + [Meaning(f.value)] + Items(f.next);
      NumberOfDecimal(|done|);
      var v' := ItemRemoved(v, base, path, done, Meaning(f.value), Items(f.next), Decimal(|done|));
      ItemGone(v', base, path, done, f, t, ok);
      DoReaches(v, Remove(path + [Decimal(|done|)]), v', PlanItems(path, |done|, f.next, t), base, path, VArray(done + Items(t)));
    } else if t.Node? {
      assert done + Items(f) == done;
      var y := Meaning(t.value);
      var v' := RunAdd(v, base, path, VArray(done), "-", y, VArray(done + [y]));
      ItemCame(v', base, path, done, f, t, ok);
      DoReaches(v, Add(path + ["-"], y), v', PlanItems(path, |done| + 1, f, t.next), base, path, VArray(done + Items(t)));
    } else {
      assert done + Items(f) == done + Items(t);
    }
  }

  lemma {:induction false} ItemGone(v': Value, base: Value, path: seq<string>, done: seq<Value>, f: Nodes, t: Nodes, ok: string -> bool)
    requires Plain(ok)
    requires ValuesWellFormed(f, ok) && ValuesWellFormed(t, ok) && f.Node?
    requires Holds(v', base, path, VArray(done + Items(f.next)))
    ensures Reaches(RunAll(v', PlanItems(path, |done|, f.next, t)), base, path, VArray(done + Items(t)))
    decreases ChainSize(f) + ChainSize(t), 1
  {
    hide Holds, Reaches, RunAll, PlanItems, WellFormed, Meaning;
    ItemPlanRuns(v', base, path, done, f.next, t, ok);
  }

  lemma {:induction false} ItemCame(v': Value, base: Value, path: seq<string>, done: seq<Value>, f: Nodes, t: Nodes, ok: string -> bool)
    requires Plain(ok)
    requires ValuesWellFormed(f, ok) && ValuesWellFormed(t, ok) && f.End? && t.Node?
    requires Holds(v', base, path, VArray(done + [Meaning(t.value)]))
    ensures Reaches(RunAll(v', PlanItems(path, |done| + 1, f, t.next)), base, path, VArray(done + Items(t)))
    decreases ChainSize(f) + ChainSize(t), 1
  {
    hide Holds, Reaches, RunAll, PlanItems, WellFormed, Meaning;
    var y := Meaning(t.value);
    assert done + Items(t) == (done + [y]) + Items(t.next);
    assert (done + [y]) + Items(f) == done + [y];
    ItemPlanRuns(v', base, path, done + [y], f, t.next, ok);
  }

  lemma {:induction false} ItemsMeet(v: Value, base: Value, path: seq<string>, done: seq<Value>, f: Nodes, t: Nodes, ok: string -> bool)
    requires Plain(ok)
    requires ValuesWellFormed(f, ok) && ValuesWellFormed(t, ok) && f.Node? && t.Node?
    requires Holds(v, base, path, VArray(done + Items(f)))
    ensures Reaches(RunAll(v, Join(Plan(path + [Decimal(|done|)], f.value, t.value),
                                   PlanItems(path, |done| + 1, f.next, t.next))),
                    base, path, VArray(done + Items(t)))
    decreases ChainSize(f) + ChainSize(t), 1
  {
    hide Decimal, NumberOf, RunAll, Join, Plan, PlanItems, WellFormed;
    var x, y, token := Meaning(f.value), Meaning(t.value), Decimal(|done|);
    assert done + Items(f) == done + [x] + Items(f.next) && done + Items(t) == done + [y] + Items(t.next);
    NumberOfDecimal(|done|);
    ItemRewritten(v, base, path, done, x, y, Items(f.next), token);
    PlanRuns(v, path + [token], f.value, t.value, ok);
    var v' := With(v, path + [token], y);
    ItemPlanRuns(v', base, path, done + [y], f.next, t.next, ok);
    JoinReaches(v, Plan(path + [token], f.value, t.value), v', PlanItems(path, |done| + 1, f.next, t.next),
                base, path, VArray(done + Items(t)));
  }

  /** `m` agrees with the members of `f`: they are still to be visited. */
  ghost predicate Agrees(m: map<string, Value>, f: Nodes) {
    forall k :: k in Keys(f) ==> k in m && m[k] == Fields(f)[k]
  }

  lemma AgreesNext(m: map<string, Value>, f: Nodes, x: Value)
    requires f.Node? && Distinct(f) && Agrees(m, f)
    ensures m[f.key] == Meaning(f.value)
    ensures Agrees(m[f.key := x], f.next) && Agrees(m - {f.key}, f.next)
  {
  }

  /** Rewriting one member. */
  lemma FieldRewritten(v: Value, base: Value, path: seq<string>, m: map<string, Value>, k: string, y: Value)
    requires Holds(v, base, path, VObject(m)) && k in m
    ensures Lookup(v, path + [k]) == Some(m[k])
    ensures Holds(With(v, path + [k], y), base, path, VObject(m[k := y]))
  {
    LookupSnoc(v, path, k);
    HoldsUp(v, With(v, path + [k], y), base, path, VObject(m), k, y);
  }

  /** Members that `f` still holds go, members that `t` still holds come; the others stay. */
  lemma {:induction false} MemberPlanRuns(v: Value, base: Value, path: seq<string>, m: map<string, Value>, f: Nodes, t: Nodes, ok: string -> bool)
    requires Plain(ok)
    requires MembersOk(f, ok) && MembersOk(t, ok)
    requires Holds(v, base, path, VObject(m)) && Agrees(m, f)
    ensures Reaches(RunAll(v, PlanMembers(path, f, t)), base, path, VObject((m - Keys(f)) + Fields(t)))
    decreases ChainSize(f) + ChainSize(t), 2
  {
    if f.End? && t.End? {
      assert (m - {}) + map[] == m;
    } else if f.Node? && t.Node? && f.key == t.key {
      MembersMeet(v, base, path, m, f, t, ok);
    } else if f.Node? && (t.End? || Before(f.key, t.key)) {
      MemberGoes(v, base, path, m, f, t, ok);
    } else {
      MemberComes(v, base, path, m, f, t, ok);
    }
  }

  ghost predicate MembersOk(ns: Nodes, ok: string -> bool) {
    ValuesWellFormed(ns, ok) && KeysOk(ns, ok) && Distinct(ns) && StrictlySorted(ns)
  }

  lemma {:induction false} MembersMeet(v: Value, base: Value, path: seq<string>, m: map<string, Value>, f: Nodes, t: Nodes, ok: string -> bool)
    requires Plain(ok)
    requires MembersOk(f, ok) && MembersOk(t, ok)
    requires Holds(v, base, path, VObject(m)) && Agrees(m, f)
    requires f.Node? && t.Node? && f.key == t.key
    ensures Reaches(RunAll(v, Join(Plan(path + [f.key], f.value, t.value), PlanMembers(path, f.next, t.next))),
                    base, path, VObject((m - Keys(f)) + Fields(t)))
    decreases ChainSize(f) + ChainSize(t), 1
  {
    var k, x := f.key, Meaning(t.value);
    AgreesNext(m, f, x);
    FieldRewritten(v, base, path, m, k, x);
    PlanRuns(v, path + [k], f.value, t.value, ok);
    var v' := With(v, path + [k], x);
    MemberPlanRuns(v', base, path, m[k := x], f.next, t.next, ok);
    SwapField(m, k, x, Keys(f.next), Fields(t.next));
    JoinReaches(v, Plan(path + [k], f.value, t.value), v', PlanMembers(path, f.next, t.next),
                base, path, VObject((m - Keys(f)) + Fields(t)));
  }

  lemma {:induction false} MemberGoes(v: Value, base: Value, path: seq<string>, m: map<string, Value>, f: Nodes, t: Nodes, ok: string -> bool)
    requires Plain(ok)
    requires MembersOk(f, ok) && MembersOk(t, ok)
    requires Holds(v, base, path, VObject(m)) && Agrees(m, f)
    requires f.Node?
    ensures Reaches(RunAll(v, Do(Remove(path + [f.key]), PlanMembers(path, f.next, t))),
                    base, path, VObject((m - Keys(f)) + Fields(t)))
    decreases ChainSize(f) + ChainSize(t), 1
  {
    AgreesNext(m, f, VNull);
    var v' := RunRemove(v, base, path, VObject(m), f.key, VObject(m - {f.key}));
    AfterRemoval(v', base, path, m, f, t, ok);
    DoReaches(v, Remove(path + [f.key]), v', PlanMembers(path, f.next, t), base, path, VObject((m - Keys(f)) + Fields(t)));
  }

  lemma {:induction false} AfterRemoval(v': Value, base: Value, path: seq<string>, m: map<string, Value>, f: Nodes, t: Nodes, ok: string -> bool)
    requires Plain(ok)
    requires MembersOk(f, ok) && MembersOk(t, ok) && f.Node? && Agrees(m, f)
    requires Holds(v', base, path, VObject(m - {f.key}))
    ensures Reaches(RunAll(v', PlanMembers(path, f.next, t)), base, path, VObject((m - Keys(f)) + Fields(t)))
    decreases ChainSize(f) + ChainSize(t), 0
  {
    AgreesNext(m, f, VNull);
    MemberPlanRuns(v', base, path, m - {f.key}, f.next, t, ok);
    DropTwice(m, f.key, Keys(f.next));
  }

  lemma {:induction false} MemberComes(v: Value, base: Value, path: seq<string>, m: map<string, Value>, f: Nodes, t: Nodes, ok: string -> bool)
    requires Plain(ok)
    requires MembersOk(f, ok) && MembersOk(t, ok)
    requires Holds(v, base, path, VObject(m)) && Agrees(m, f)
    requires t.Node? && (f.Node? ==> f.key != t.key && !Before(f.key, t.key))
    ensures Reaches(RunAll(v, Do(Add(path + [t.key], Meaning(t.value)), PlanMembers(path, f, t.next))),
                    base, path, VObject((m - Keys(f)) + Fields(t)))
    decreases ChainSize(f) + ChainSize(t), 1
  {
    ComesFirst(f, t, ok);
    var x := Meaning(t.value);
    var v' := RunAdd(v, base, path, VObject(m), t.key, x, VObject(m[t.key := x]));
    AfterAddition(v', base, path, m, f, t, ok);
    DoReaches(v, Add(path + [t.key], x), v', PlanMembers(path, f, t.next), base, path, VObject((m - Keys(f)) + Fields(t)));
  }

  lemma {:induction false} AfterAddition(v': Value, base: Value, path: seq<string>, m: map<string, Value>, f: Nodes, t: Nodes, ok: string -> bool)
    requires Plain(ok)
    requires MembersOk(f, ok) && MembersOk(t, ok) && t.Node? && t.key !in Keys(f) && Agrees(m, f)
    requires Holds(v', base, path, VObject(m[t.key := Meaning(t.value)]))
    ensures Reaches(RunAll(v', PlanMembers(path, f, t.next)), base, path, VObject((m - Keys(f)) + Fields(t)))
    decreases ChainSize(f) + ChainSize(t), 0
  {
    var x := Meaning(t.value);
    AgreesAdded(m, f, t.key, x);
    NewField(m, t.key, x, Keys(f), Fields(t.next));
    assert Fields(t) == Fields(t.next)[t.key := x];
    MemberPlanRuns(v', base, path, m[t.key := x], f, t.next, ok);
  }

  lemma AgreesAdded(m: map<string, Value>, f: Nodes, k: string, x: Value)
    requires Agrees(m, f) && k !in Keys(f)
    ensures Agrees(m[k := x], f)
  {
  }

  lemma DropTwice(m: map<string, Value>, k: string, ks: set<string>)
    ensures (m - {k}) - ks == m - ({k} + ks)
  {
  }

  lemma ComesFirst(f: Nodes, t: Nodes, ok: string -> bool)
    requires Plain(ok)
    requires t.Node? && KeysOk(f, ok) && KeysOk(t, ok) && StrictlySorted(f)
    requires f.Node? ==> f.key != t.key && !Before(f.key, t.key)
    ensures t.key !in Keys(f)
  {
    if f.Node? {
      CompareZero(f.key, t.key, true);
      CompareAntisymmetric(f.key, t.key, true);
    }
    FrontIsFresh(t.key, f, ok);
  }

  lemma SwapField(m: map<string, Value>, k: string, x: Value, ks: set<string>, n: map<string, Value>)
    requires k !in ks && k !in n
    ensures (m[k := x] - ks) + n == (m - ({k} + ks)) + n[k := x]
  {
  }

  lemma NewField(m: map<string, Value>, k: string, x: Value, ks: set<string>, n: map<string, Value>)
    requires k !in ks && k !in n
    ensures (m[k := x] - ks) + n == (m - ks) + n[k := x]
  {
  }

  // ---------- the round trip ----------

  lemma {:induction false} AppliesAsPlanned(doc: Json, patches: Nodes, ops: Ops, caseSensitive: bool, ok: string -> bool)
    requires Plain(ok)
    requires WellFormed(doc, ok) && EncodesAll(patches, ops, caseSensitive, ok)
    requires RunAll(Meaning(doc), ops).Some? && EditsOnly(ops)
    ensures Achieves(ApplyAll(doc, patches, caseSensitive), RunAll(Meaning(doc), ops), ok)
    decreases patches
  {
    hide WellFormed, Meaning, Run, ApplyPatch, Plain, Encodes;
    if patches.Node? {
      OneApplies(doc, patches.value, ops.op, caseSensitive, ok);
      AppliesAsPlanned(ApplyPatch(doc, patches.value, caseSensitive).doc, patches.next, ops.rest, caseSensitive, ok);
    }
  }

  lemma OneApplies(doc: Json, patch: Json, op: Op, caseSensitive: bool, ok: string -> bool)
    requires Plain(ok)
    requires WellFormed(doc, ok) && Encodes(patch, op, caseSensitive, ok) && Run(Meaning(doc), op).Some?
    requires op.Move? || op.Copy? ==> op.path != []
    ensures Achieves(ApplyPatch(doc, patch, caseSensitive), Run(Meaning(doc), op), ok)
  {
    hide WellFormed, Meaning, Run, ApplyPatch, Plain, PlainPath, Names, Fair;
    PlainIsFair(doc, op, caseSensitive, ok);
    ApplyImplementsRfc(doc, patch, op, caseSensitive, ok);
  }

  predicate EditsOnly(ops: Ops) {
    ops.Done? || (!ops.op.Move? && !ops.op.Copy? && !ops.op.Test? && EditsOnly(ops.rest))
  }

  lemma {:induction false} JoinEdits(a: Ops, b: Ops)
    requires EditsOnly(a) && EditsOnly(b)
    ensures EditsOnly(Join(a, b))
  {
    if a.Do? { JoinEdits(a.rest, b); }
  }

  lemma {:induction false} PlanEdits(path: seq<string>, from: Json, to: Json)
    ensures EditsOnly(Plan(path, from, to))
    decreases Size(from) + Size(to), 0
  {
    if SameType(from, to) && from.Array? {
      ItemPlanEdits(path, 0, from.child, to.child);
    } else if SameType(from, to) && from.Object? {
      SortSize(from.child, false);
      SortSize(to.child, false);
      MemberPlanEdits(path, SortNodes(from.child, false), SortNodes(to.child, false));
    }
  }

  lemma {:induction false} ItemPlanEdits(path: seq<string>, index: nat, f: Nodes, t: Nodes)
    ensures EditsOnly(PlanItems(path, index, f, t))
    decreases ChainSize(f) + ChainSize(t), 1
  {
    if f.Node? && t.Node? {
      PlanEdits(path + [Decimal(index)], f.value, t.value);
      ItemPlanEdits(path, index + 1, f.next, t.next);
      JoinEdits(Plan(path + [Decimal(index)], f.value, t.value), PlanItems(path, index + 1, f.next, t.next));
    } else if f.Node? {
      ItemPlanEdits(path, index, f.next, t);
    } else if t.Node? {
      ItemPlanEdits(path, index + 1, f, t.next);
    }
  }

  lemma {:induction false} MemberPlanEdits(path: seq<string>, f: Nodes, t: Nodes)
    ensures EditsOnly(PlanMembers(path, f, t))
    decreases ChainSize(f) + ChainSize(t), 1
  {
    if f.Node? && t.Node? && f.key == t.key {
      PlanEdits(path + [f.key], f.value, t.value);
      MemberPlanEdits(path, f.next, t.next);
      JoinEdits(Plan(path + [f.key], f.value, t.value), PlanMembers(path, f.next, t.next));
    } else if f.Node? && (t.End? || Before(f.key, t.key)) {
      MemberPlanEdits(path, f.next, t);
    } else if t.Node? {
      MemberPlanEdits(path, f, t.next);
    }
  }

  /** What fits an index or the end of an array. */
  predicate IndexLike(k: string) {
    k == "-" || (k != "" && AllDigits(k))
  }

  /** Applying the generated patches to any tree that means what `from` means succeeds and gives `to`. */
  lemma PatchRoundTrip(doc: Json, from: Json, to: Json, caseSensitive: bool, memory: Memory, ok: string -> bool)
    requires Agreeing(ok) && forall k :: ok(k) ==> '~' !in k && '/' !in k
    requires WellFormed(doc, ok) && WellFormed(from, ok) && WellFormed(to, ok)
    requires Meaning(doc) == Meaning(from)
    ensures var r := ApplyAll(doc, Patches("", from, to, caseSensitive, memory), caseSensitive);
            && r.status == 0
            && Meaning(r.doc) == Meaning(to)
            && Same(r.doc, to, true) && Same(r.doc, to, false)
  {
    hide WellFormed, Agreeing, Plain, ApplyAll;
    var more := k => ok(k) || IndexLike(k);
    MoreIsPlain(ok, more);
    WeakerKeys(doc, ok, more);
    WeakerKeys(from, ok, more);
    WeakerKeys(to, ok, more);
    PlainRoundTrip(doc, from, to, caseSensitive, memory, more);
  }

  lemma PlainRoundTrip(doc: Json, from: Json, to: Json, caseSensitive: bool, memory: Memory, ok: string -> bool)
    requires Plain(ok)
    requires WellFormed(doc, ok) && WellFormed(from, ok) && WellFormed(to, ok)
    requires Meaning(doc) == Meaning(from)
    ensures var r := ApplyAll(doc, Patches("", from, to, caseSensitive, memory), caseSensitive);
            && r.status == 0 && WellFormed(r.doc, ok)
            && Meaning(r.doc) == Meaning(to)
            && Same(r.doc, to, true) && Same(r.doc, to, false)
  {
    hide WellFormed, Meaning, Plain, ApplyAll, RunAll, Same;
    var patches, plan := Patches("", from, to, caseSensitive, memory), Plan([], from, to);
    assert PathString([]) == "";
    PatchesEncodePlan([], from, to, caseSensitive, memory, ok);
    PlanReaches(Meaning(doc), from, to, ok);
    PlanEdits([], from, to);
    AppliesAsPlanned(doc, patches, plan, caseSensitive, ok);
    var r := ApplyAll(doc, patches, caseSensitive).doc;
    PlainNames(ok, true);
    SameEitherWay(r, to, ok);
  }

  lemma SameEitherWay(a: Json, b: Json, ok: string -> bool)
    requires Plain(ok) && WellFormed(a, ok) && WellFormed(b, ok) && Meaning(a) == Meaning(b)
    ensures Same(a, b, true) && Same(a, b, false)
  {
    hide Agreeing, Separates;
    PlainNames(ok, true);
    AgreeingSeparates(ok, true);
    SameIffSameMeaning(a, b, true, ok);
    SameIffSameMeaning(a, b, false, ok);
  }

  /** Indices agree with all names. */
  lemma {:induction false} LowAgrees(a: string, b: string)
    requires NulFree(b) && forall i :: 0 <= i < |a| ==> '-' <= a[i] <= '9'
    ensures Agree(a, b)
  {
    if a != "" && b != "" && First(a, true) == First(b, true) { LowAgrees(a[1..], b[1..]); }
  }

  lemma MoreIsPlain(ok: string -> bool, more: string -> bool)
    requires Agreeing(ok) && forall k :: ok(k) ==> '~' !in k && '/' !in k
    requires forall k :: more(k) <==> ok(k) || IndexLike(k)
    ensures Plain(more)
  {
    forall k, l | more(k) && more(l) ensures AnyKey(k) && Agree(k, l) {
      MoreAgree(ok, k, l);
    }
    forall n: nat ensures more(Decimal(n)) { NumberOfDecimal(n); }
    AgreeingSeparates(more, false);
  }

  lemma MoreAgree(ok: string -> bool, k: string, l: string)
    requires Agreeing(ok) && (ok(k) || IndexLike(k)) && (ok(l) || IndexLike(l))
    ensures AnyKey(k) && Agree(k, l)
  {
    hide Agree;
    if ok(k) { assert Agree(k, k); }
    if ok(l) { assert Agree(l, l); }
    if IndexLike(k) {
      LowAgrees(k, l);
    } else if IndexLike(l) {
      LowAgrees(l, k);
      AgreeSymmetric(l, k);
    }
  }

  lemma PlanReaches(v: Value, from: Json, to: Json, ok: string -> bool)
    requires Plain(ok)
    requires WellFormed(from, ok) && WellFormed(to, ok) && v == Meaning(from)
    ensures RunAll(v, Plan([], from, to)) == Some(Meaning(to))
  {
    assert Lookup(v, []) == Some(v) && With(v, [], Meaning(to)) == Meaning(to);
    PlanRuns(v, [], from, to, ok);
  }
}
