/** JSON Merge Patch: merging, generating, and exactly when the two are inverse; LinkedMerging adds the links. */
module Merging {
  import opened Basics
  import opened CStrings
  import opened JsonModel
  import opened Comparing
  import S = Sorting

  // ---------- section 2 of RFC 7396 on values ----------

  function FieldsOf(v: Value): map<string, Value> {
    if v.VObject? then v.fields else map[]
  }

  /** A value that is absent merges like null: neither is an object. */
  function Get(m: map<string, Value>, k: string): Value {
    if k in m then m[k] else VNull
  }

  function MergeValue(target: Value, patch: Value): Value
    decreases patch
  {
    if !patch.VObject? then patch
    else
      var t := FieldsOf(target);
      VObject(map k | k in t.Keys + patch.fields.Keys && !(k in patch.fields && patch.fields[k] == VNull) ::
                if k in patch.fields then MergeValue(Get(t, k), patch.fields[k]) else t[k])
  }

  /** The map part, for a patch object whose members are `p`. */
  function MergeFields(t: map<string, Value>, p: map<string, Value>): map<string, Value> {
    map k | k in t.Keys + p.Keys && !(k in p && p[k] == VNull) ::
      if k in p then MergeValue(Get(t, k), p[k]) else t[k]
  }

  lemma MergeObjects(target: Value, p: map<string, Value>)
    ensures MergeValue(target, VObject(p)) == VObject(MergeFields(FieldsOf(target), p))
  {
    var t, patch := FieldsOf(target), VObject(p);
    var m := (map k | k in t.Keys + p.Keys && !(k in p && p[k] == VNull) ::
                if k in p then MergeValue(Get(t, k), patch.fields[k]) else t[k]);
    assert m == MergeFields(t, p);
  }

  // ---------- merge_patch ----------

  /** The patch is merged into a tree, or into nothing. */
  function MergePatch(target: Option<Json>, patch: Json, caseSensitive: bool): Json
    decreases patch, 1
  {
    if !patch.Object? then patch
    else
      Object(MergeInto(if target.Some? && target.value.Object? then target.value.child else End, patch.child, caseSensitive))
  }

  /** Each member of the patch in turn: the member of that name goes, and unless null a new one is put at the end. */
  function MergeInto(ns: Nodes, p: Nodes, caseSensitive: bool): Nodes
    decreases p, 0
  {
    if p.End? then ns
    else
      var k := FindName(ns, p.key, caseSensitive);
      var rest := if k < Length(ns) then RemoveNth(ns, k) else ns;
      if p.value.Null? then MergeInto(rest, p.next, caseSensitive)
      else
        var member := MergePatch(if k < Length(ns) then Some(Nth(ns, k)) else None, p.value, caseSensitive);
        MergeInto(Append(rest, p.key, member), p.next, caseSensitive)
  }

  function TargetMeaning(target: Option<Json>): Value {
    if target.Some? then Meaning(target.value) else VNull
  }

  ghost predicate TargetOk(target: Option<Json>, ok: string -> bool) {
    target.Some? ==> WellFormed(target.value, ok)
  }

  /** merge_patch computes the RFC's MergePatch and keeps keys distinct. */
  lemma {:induction false} MergeImplementsRfc(target: Option<Json>, patch: Json, caseSensitive: bool, ok: string -> bool)
    requires Separates(ok, caseSensitive) && TargetOk(target, ok) && WellFormed(patch, ok)
    ensures Meaning(MergePatch(target, patch, caseSensitive)) == MergeValue(TargetMeaning(target), Meaning(patch))
    ensures WellFormed(MergePatch(target, patch, caseSensitive), ok)
    decreases patch, 1
  {
    if patch.Object? {
      var ns := if target.Some? && target.value.Object? then target.value.child else End;
      MergeIntoImplements(ns, patch.child, caseSensitive, ok);
      MergeObjects(TargetMeaning(target), Fields(patch.child));
      assert FieldsOf(TargetMeaning(target)) == Fields(ns);
    }
  }

  ghost predicate MembersOk(ns: Nodes, ok: string -> bool) {
    Distinct(ns) && KeysOk(ns, ok) && ValuesWellFormed(ns, ok)
  }

  lemma {:induction false} MergeIntoImplements(ns: Nodes, p: Nodes, caseSensitive: bool, ok: string -> bool)
    requires Separates(ok, caseSensitive) && MembersOk(ns, ok) && MembersOk(p, ok)
    ensures Fields(MergeInto(ns, p, caseSensitive)) == MergeFields(Fields(ns), Fields(p))
    ensures MembersOk(MergeInto(ns, p, caseSensitive), ok)
    decreases p, 0
  {
    if p.End? {
      assert MergeFields(Fields(ns), map[]) == Fields(ns);
    } else {
      FindNameIsFindKey(ns, p.key, caseSensitive, ok);
      var k := FindKey(ns, p.key);
      var rest := if k < Length(ns) then RemoveNth(ns, k) else ns;
      TakenOut(ns, p.key, ok);
      if p.value.Null? {
        MergeIntoImplements(rest, p.next, caseSensitive, ok);
        NullFirst(Fields(ns), p.key, Fields(p.next));
      } else {
        var target := if k < Length(ns) then Some(Nth(ns, k)) else None;
        MergeImplementsRfc(target, p.value, caseSensitive, ok);
        var member := MergePatch(target, p.value, caseSensitive);
        AppendMeaning(rest, p.key, member, ok);
        AppendField(rest, p.key, member);
        MergeIntoImplements(Append(rest, p.key, member), p.next, caseSensitive, ok);
        MemberFirst(Fields(ns), p.key, Meaning(p.value), Fields(p.next));
      }
    }
  }

  /** The chain without the member called `key`, and what that member meant. */
  lemma TakenOut(ns: Nodes, key: string, ok: string -> bool)
    requires MembersOk(ns, ok) && ok(key)
    ensures var k := FindKey(ns, key);
            var rest := if k < Length(ns) then RemoveNth(ns, k) else ns;
            && MembersOk(rest, ok) && key !in Keys(rest) && Fields(rest) == Fields(ns) - {key}
            && (k < Length(ns) ==> WellFormed(Nth(ns, k), ok))
            && TargetMeaning(if k < Length(ns) then Some(Nth(ns, k)) else None) == Get(Fields(ns), key)
  {
    var k := FindKey(ns, key);
    if k < Length(ns) {
      RemoveMeaning(ns, k, ok);
      RemoveField(ns, k);
      NthMeaning(ns, k, ok);
      FirstCounts(ns, key);
    }
  }

  lemma NullFirst(t: map<string, Value>, k: string, p: map<string, Value>)
    requires k !in p
    ensures MergeFields(t - {k}, p) == MergeFields(t, p[k := VNull])
  {
  }

  lemma MemberFirst(t: map<string, Value>, k: string, v: Value, p: map<string, Value>)
    requires k !in p && v != VNull
    ensures MergeFields((t - {k})[k := MergeValue(Get(t, k), v)], p) == MergeFields(t, p[k := v])
  {
    hide MergeValue;
  }

  // ---------- generate_merge_patch ----------

  /** The patch, if any, and both trees as the walk leaves them. */
  datatype Generated = Generated(patch: Option<Json>, from: Json, to: Json)
  datatype GeneratedNodes = GeneratedNodes(patch: Nodes, from: Nodes, to: Nodes)

  lemma {:induction false} CompareSize(a: Json, b: Json, caseSensitive: bool)
    ensures var r := CompareJson(a, b, caseSensitive); Size(r.a) == Size(a) && Size(r.b) == Size(b)
    decreases Size(a) + Size(b), 0
  {
    if SameType(a, b) {
      match a
      case Array(ns) => CompareChainSize(ns, b.child, false, caseSensitive);
      case Object(ns) =>
        SortSize(ns, caseSensitive);
        SortSize(b.child, caseSensitive);
        CompareChainSize(SortNodes(ns, caseSensitive), SortNodes(b.child, caseSensitive), true, caseSensitive);
      case _ =>
    }
  }

  lemma {:induction false} CompareChainSize(a: Nodes, b: Nodes, named: bool, caseSensitive: bool)
    ensures var r := CompareNodes(a, b, named, caseSensitive); ChainSize(r.a) == ChainSize(a) && ChainSize(r.b) == ChainSize(b)
    decreases ChainSize(a) + ChainSize(b), 1, a
  {
    if a.Node? && b.Node? {
      CompareSize(a.value, b.value, caseSensitive);
      CompareChainSize(a.next, b.next, named, caseSensitive);
    }
  }

  function Generate(from: Json, to: Json, caseSensitive: bool): Generated
    decreases Size(from) + Size(to), 0
  {
    if !to.Object? || !from.Object? then Generated(Some(to), from, to)
    else
      SortSize(from.child, caseSensitive);
      SortSize(to.child, caseSensitive);
      var r := GenerateMembers(SortNodes(from.child, caseSensitive), SortNodes(to.child, caseSensitive), caseSensitive);
      Generated(if r.patch.End? then None else Some(Object(r.patch)), Object(r.from), Object(r.to))
  }

  /** The walk compares names with strcmp whatever the flag, and always goes down folding case. */
  function GenerateMembers(f: Nodes, t: Nodes, caseSensitive: bool): GeneratedNodes
    decreases ChainSize(f) + ChainSize(t), 1
  {
    if f.End? && t.End? then GeneratedNodes(End, End, End)
    else
      var diff := if f.End? then 1 else if t.End? then -1 else CompareStrings(f.key, t.key, true);
      if diff < 0 && f.Node? then
        var r := GenerateMembers(f.next, t, caseSensitive);
        GeneratedNodes(Node(f.key, Null, r.patch), f.(next := r.from), r.to)
      else if diff > 0 && t.Node? then
        var r := GenerateMembers(f, t.next, caseSensitive);
        GeneratedNodes(Node(t.key, t.value, r.patch), r.from, t.(next := r.to))
      else if f.Node? && t.Node? then
        var c := CompareJson(f.value, t.value, caseSensitive);
        CompareSize(f.value, t.value, caseSensitive);
        var g := if c.same then Generated(None, c.a, c.b) else Generate(c.a, c.b, false);
        var r := GenerateMembers(f.next, t.next, caseSensitive);
        GeneratedNodes(if g.patch.None? then r.patch else Node(t.key, g.patch.value, r.patch),
                       Node(f.key, g.from, r.from), Node(t.key, g.to, r.to))
      else GeneratedNodes(End, f, t)
  }

  function BehindAll(patch: Nodes, from: Nodes, to: Nodes, rest: GeneratedNodes): GeneratedNodes {
    GeneratedNodes(Concat(patch, rest.patch), Concat(from, rest.from), Concat(to, rest.to))
  }

  lemma AppendBehind(patch: Nodes, from: Nodes, to: Nodes, rest: GeneratedNodes, key: string, p: Option<Json>, f: Option<Json>, t: Option<Json>)
    ensures BehindAll(if p.Some? then Append(patch, key, p.value) else patch,
                      if f.Some? then Append(from, key, f.value) else from,
                      if t.Some? then Append(to, key, t.value) else to, rest)
         == BehindAll(patch, from, to,
                      GeneratedNodes(if p.Some? then Node(key, p.value, rest.patch) else rest.patch,
                                     if f.Some? then Node(key, f.value, rest.from) else rest.from,
                                     if t.Some? then Node(key, t.value, rest.to) else rest.to))
  {
    if p.Some? { AppendIsConcat(patch, key, p.value); ConcatAssociates(patch, Node(key, p.value, End), rest.patch); }
    if f.Some? { AppendIsConcat(from, key, f.value); ConcatAssociates(from, Node(key, f.value, End), rest.from); }
    if t.Some? { AppendIsConcat(to, key, t.value); ConcatAssociates(to, Node(key, t.value, End), rest.to); }
  }

  /** generate_merge_patch with its loop over both sorted chains. */
  method GenerateInPlace(from: Json, to: Json, caseSensitive: bool) returns (g: Generated)
    ensures g == Generate(from, to, caseSensitive)
    decreases Size(from) + Size(to)
  {
    if !to.Object? || !from.Object? { return Generated(Some(to), from, to); }
    SortSize(from.child, caseSensitive);
    SortSize(to.child, caseSensitive);
    var f, t := SortNodes(from.child, caseSensitive), SortNodes(to.child, caseSensitive);
    ghost var whole := GenerateMembers(f, t, caseSensitive);
    var patch, doneF, doneT := End, End, End;
    while f.Node? || t.Node?
      decreases ChainSize(f) + ChainSize(t)
      invariant ChainSize(f) <= ChainSize(from.child) && ChainSize(t) <= ChainSize(to.child)
      invariant BehindAll(patch, doneF, doneT, GenerateMembers(f, t, caseSensitive)) == whole
    {
      var diff := 1;
      if f.Node? {
        diff := -1;
        if t.Node? { diff := CompareLoop(f.key, t.key, true); }
      }
      if diff < 0 {
        AppendBehind(patch, doneF, doneT, GenerateMembers(f.next, t, caseSensitive), f.key, Some(Null), Some(f.value), None);
        patch, doneF, f := Append(patch, f.key, Null), Append(doneF, f.key, f.value), f.next;
      } else if diff > 0 {
        AppendBehind(patch, doneF, doneT, GenerateMembers(f, t.next, caseSensitive), t.key, Some(t.value), None, Some(t.value));
        patch, doneT, t := Append(patch, t.key, t.value), Append(doneT, t.key, t.value), t.next;
      } else {
        CompareSize(f.value, t.value, caseSensitive);
        var c := CompareJson(f.value, t.value, caseSensitive);
        var below := Generated(None, c.a, c.b);
        if !c.same { below := GenerateInPlace(c.a, c.b, false); }
        ghost var rest := GenerateMembers(f.next, t.next, caseSensitive);
        AppendBehind(patch, doneF, doneT, rest, f.key, None, Some(below.from), None);
        AppendBehind(patch, Append(doneF, f.key, below.from), doneT, rest, t.key, below.patch, None, Some(below.to));
        AppendIsConcat(doneF, f.key, below.from);
        ConcatAssociates(doneF, Node(f.key, below.from, End), rest.from);
        doneF, doneT := Append(doneF, f.key, below.from), Append(doneT, t.key, below.to);
        if below.patch.Some? { patch := Append(patch, t.key, below.patch.value); }
        f, t := f.next, t.next;
      }
    }
    ConcatEnd(patch);
    ConcatEnd(doneF);
    ConcatEnd(doneT);
    return Generated(if patch.End? then None else Some(Object(patch)), Object(doneF), Object(doneT));
  }

  /** The difference of two values as a merge patch: null for what goes, the new value for what comes. */
  function DiffValue(f: Value, t: Value): Value
    decreases t
  {
    if !f.VObject? || !t.VObject? then t
    else
      VObject(map k | k in f.fields.Keys + t.fields.Keys && !(k in f.fields && k in t.fields && f.fields[k] == t.fields[k]) ::
                if k !in t.fields then VNull else DiffValue(Get(f.fields, k), t.fields[k]))
  }

  function DiffFields(f: map<string, Value>, t: map<string, Value>): map<string, Value> {
    map k | k in f.Keys + t.Keys && !(k in f && k in t && f[k] == t[k]) ::
      if k !in t then VNull else DiffValue(Get(f, k), t[k])
  }

  lemma DiffObjects(f: map<string, Value>, t: map<string, Value>)
    ensures DiffValue(VObject(f), VObject(t)) == VObject(DiffFields(f, t))
  {
    var v := VObject(t);
    var m := (map k | k in f.Keys + t.Keys && !(k in f && k in t && f[k] == t[k]) ::
                if k !in t then VNull else DiffValue(Get(f, k), v.fields[k]));
    assert m == DiffFields(f, t);
  }

  ghost predicate Shuffled(j: Json, like: Json, ok: string -> bool) {
    Meaning(j) == Meaning(like) && WellFormed(j, ok)
  }

  /** The generated patch means the difference; there is none exactly for objects that mean the same. */
  lemma {:induction false} GeneratesDifference(from: Json, to: Json, caseSensitive: bool, ok: string -> bool)
    requires Agreeing(ok)
    requires WellFormed(from, ok) && WellFormed(to, ok)
    ensures var g := Generate(from, to, caseSensitive);
            && (g.patch == None <==> from.Object? && to.Object? && Meaning(from) == Meaning(to))
            && (g.patch.Some? ==> Meaning(g.patch.value) == DiffValue(Meaning(from), Meaning(to)))
            && (g.patch.Some? ==> WellFormed(g.patch.value, ok))
            && Shuffled(g.from, from, ok) && Shuffled(g.to, to, ok)
    decreases Size(from) + Size(to), 0
  {
    if from.Object? && to.Object? {
      hide SortNodes, GenerateMembers, StrictlySorted, Fields, DiffFields, Keys, Distinct, ValuesWellFormed;
      SortSize(from.child, caseSensitive);
      SortSize(to.child, caseSensitive);
      SortedNodes(from.child, caseSensitive, ok);
      SortedNodes(to.child, caseSensitive, ok);
      GeneratesMemberDifference(SortNodes(from.child, caseSensitive), SortNodes(to.child, caseSensitive), caseSensitive, ok);
      DiffObjects(Fields(from.child), Fields(to.child));
      EmptyDifference(Fields(from.child), Fields(to.child));
    }
  }

  lemma EmptyDifference(f: map<string, Value>, t: map<string, Value>)
    ensures DiffFields(f, t) == map[] <==> f == t
  {
    if DiffFields(f, t) == map[] {
      forall k | k in f.Keys + t.Keys ensures k in f && k in t && f[k] == t[k] {
        assert k !in DiffFields(f, t);
      }
    }
  }

  ghost predicate SortedMembers(ns: Nodes, ok: string -> bool) {
    MembersOk(ns, ok) && StrictlySorted(ns)
  }

  ghost predicate GoodMembers(g: GeneratedNodes, f: Nodes, t: Nodes, ok: string -> bool) {
    && MembersOk(g.patch, ok) && Keys(g.patch) <= Keys(f) + Keys(t)
    && Fields(g.patch) == DiffFields(Fields(f), Fields(t))
    && Reordered(g.from, f, ok) && Reordered(g.to, t, ok)
  }

  lemma {:induction false} GeneratesMemberDifference(f: Nodes, t: Nodes, caseSensitive: bool, ok: string -> bool)
    requires Agreeing(ok)
    requires SortedMembers(f, ok) && SortedMembers(t, ok)
    ensures GoodMembers(GenerateMembers(f, t, caseSensitive), f, t, ok)
    decreases ChainSize(f) + ChainSize(t), 2
  {
    if f.End? && t.End? {
      assert DiffFields(map[], map[]) == map[];
    } else {
      if f.Node? && t.Node? {
        CompareZero(f.key, t.key, true);
        CompareAntisymmetric(f.key, t.key, true);
      }
      if f.Node? && (t.End? || Before(f.key, t.key)) {
        FrontIsFresh(f.key, t, ok);
        LeavingMember(f, t, caseSensitive, ok);
      } else if t.Node? && (f.End? || Before(t.key, f.key)) {
        FrontIsFresh(t.key, f, ok);
        ComingMember(f, t, caseSensitive, ok);
      } else {
        MeetingMembers(f, t, caseSensitive, ok);
      }
    }
  }

  lemma {:induction false} LeavingMember(f: Nodes, t: Nodes, caseSensitive: bool, ok: string -> bool)
    requires Agreeing(ok)
    requires SortedMembers(f, ok) && SortedMembers(t, ok) && f.Node? && f.key !in Keys(t)
    requires t.Node? ==> CompareStrings(f.key, t.key, true) < 0
    ensures GoodMembers(GenerateMembers(f, t, caseSensitive), f, t, ok)
    decreases ChainSize(f) + ChainSize(t), 1
  {
    GeneratesMemberDifference(f.next, t, caseSensitive, ok);
    ReorderedStep(f.key, f.value, f.value, GenerateMembers(f.next, t, caseSensitive).from, f.next, ok);
    OnlyInFrom(Fields(f.next), Fields(t), f.key, Meaning(f.value));
  }

  lemma {:induction false} ComingMember(f: Nodes, t: Nodes, caseSensitive: bool, ok: string -> bool)
    requires Agreeing(ok)
    requires SortedMembers(f, ok) && SortedMembers(t, ok) && t.Node? && t.key !in Keys(f)
    requires f.Node? ==> CompareStrings(f.key, t.key, true) > 0
    ensures GoodMembers(GenerateMembers(f, t, caseSensitive), f, t, ok)
    decreases ChainSize(f) + ChainSize(t), 1
  {
    GeneratesMemberDifference(f, t.next, caseSensitive, ok);
    ReorderedStep(t.key, t.value, t.value, GenerateMembers(f, t.next, caseSensitive).to, t.next, ok);
    OnlyInTo(Fields(f), Fields(t.next), t.key, Meaning(t.value));
  }

  lemma {:induction false} MeetingMembers(f: Nodes, t: Nodes, caseSensitive: bool, ok: string -> bool)
    requires Agreeing(ok)
    requires SortedMembers(f, ok) && SortedMembers(t, ok) && f.Node? && t.Node? && f.key == t.key
    ensures GoodMembers(GenerateMembers(f, t, caseSensitive), f, t, ok)
    decreases ChainSize(f) + ChainSize(t), 1
  {
    CompareZero(f.key, t.key, true);
    var c := CompareJson(f.value, t.value, caseSensitive);
    CompareSize(f.value, t.value, caseSensitive);
    CompareJsonMeans(f.value, t.value, caseSensitive, ok);
    if !c.same { GeneratesDifference(c.a, c.b, false, ok); }
    GeneratesMemberDifference(f.next, t.next, caseSensitive, ok);
    var g := if c.same then Generated(None, c.a, c.b) else Generate(c.a, c.b, false);
    var r := GenerateMembers(f.next, t.next, caseSensitive);
    ReorderedStep(f.key, g.from, f.value, r.from, f.next, ok);
    ReorderedStep(t.key, g.to, t.value, r.to, t.next, ok);
    InBoth(Fields(f.next), Fields(t.next), f.key, Meaning(f.value), Meaning(t.value));
  }

  lemma OnlyInFrom(f: map<string, Value>, t: map<string, Value>, k: string, v: Value)
    requires k !in f && k !in t
    ensures DiffFields(f[k := v], t) == DiffFields(f, t)[k := VNull]
  {
  }

  lemma OnlyInTo(f: map<string, Value>, t: map<string, Value>, k: string, v: Value)
    requires k !in f && k !in t
    ensures DiffFields(f, t[k := v]) == DiffFields(f, t)[k := v]
  {
    assert DiffValue(VNull, v) == v;
  }

  lemma InBoth(f: map<string, Value>, t: map<string, Value>, k: string, x: Value, y: Value)
    requires k !in f && k !in t
    ensures DiffFields(f[k := x], t[k := y]) == if x == y then DiffFields(f, t) else DiffFields(f, t)[k := DiffValue(x, y)]
  {
    hide DiffValue;
  }

  // ---------- the round trip, and exactly when it holds ----------

  /** Whether a merge patch can lead from `f` to `t`: a member that changes must not become null. */
  ghost predicate Expressible(f: Value, t: Value)
    decreases t
  {
    t.VObject? ==>
      forall k :: k in t.fields ==>
        || (k in FieldsOf(f) && FieldsOf(f)[k] == t.fields[k])
        || (t.fields[k] != VNull && Expressible(Get(FieldsOf(f), k), t.fields[k]))
  }

  lemma {:induction false} MergeUndoesDiff(f: Value, t: Value)
    ensures MergeValue(f, DiffValue(f, t)) == t <==> Expressible(f, t)
    decreases t
  {
    if t.VObject? {
      var m, n := FieldsOf(f), t.fields;
      var p := FieldsOf(DiffValue(f, t));
      if f.VObject? { DiffObjects(m, n); }
      MergeObjects(f, p);
      var r := MergeFields(m, p);
      assert DiffValue(f, t) == VObject(p);
      forall k | k in n
        ensures (k in r && r[k] == n[k]) <==> (k in m && m[k] == n[k]) || (n[k] != VNull && Expressible(Get(m, k), n[k]))
      {
        MergeUndoesDiff(Get(m, k), n[k]);
        if !f.VObject? { assert p[k] == n[k] && DiffValue(VNull, n[k]) == n[k]; }
      }
      forall k | k in r ensures k in n {
        assert k in m.Keys + p.Keys;
      }
      assert r == n <==> forall k :: k in n ==> k in r && r[k] == n[k];
    }
  }

  /** Merging the generated patch gives the second tree exactly when no member has to become null. */
  lemma MergeRoundTrip(doc: Json, from: Json, to: Json, caseSensitive: bool, mergeSensitive: bool, ok: string -> bool)
    requires Agreeing(ok)
    requires WellFormed(doc, ok) && WellFormed(from, ok) && WellFormed(to, ok)
    requires Meaning(doc) == Meaning(from)
    ensures var g := Generate(from, to, caseSensitive);
            && (g.patch == None <==> from.Object? && to.Object? && Meaning(from) == Meaning(to))
            && (g.patch.Some? ==>
                  var merged := MergePatch(Some(doc), g.patch.value, mergeSensitive);
                  && WellFormed(merged, ok)
                  && (Meaning(merged) == Meaning(to) <==> Expressible(Meaning(from), Meaning(to))))
  {
    hide WellFormed, Generate, MergePatch, Expressible, Agreeing, DiffValue, MergeValue;
    GeneratesDifference(from, to, caseSensitive, ok);
    var g := Generate(from, to, caseSensitive);
    if g.patch.Some? {
      AgreeingSeparates(ok, mergeSensitive);
      MergeImplementsRfc(Some(doc), g.patch.value, mergeSensitive, ok);
      MergeUndoesDiff(Meaning(from), Meaning(to));
    }
  }

  /** No null members outside arrays is enough, whatever the first tree is. */
  ghost predicate NullFree(v: Value) {
    v.VObject? ==> forall k :: k in v.fields ==> v.fields[k] != VNull && NullFree(v.fields[k])
  }

  lemma {:induction false} NullFreeIsExpressible(f: Value, t: Value)
    requires NullFree(t)
    ensures Expressible(f, t)
    decreases t
  {
    if t.VObject? {
      forall k | k in t.fields ensures Expressible(Get(FieldsOf(f), k), t.fields[k]) {
        NullFreeIsExpressible(Get(FieldsOf(f), k), t.fields[k]);
      }
    }
  }

  /** A member set to null gets lost. */
  lemma NullMemberGetsLost()
    ensures var from, to := Object(End), Object(Node("a", Null, End));
            var g := Generate(from, to, false);
            g.patch.Some? && Meaning(MergePatch(Some(from), g.patch.value, false)) != Meaning(to)
  {
    var from, to := Object(End), Object(Node("a", Null, End));
    assert KeysOk(to.child, LowerKey);
    assert Fields(to.child) == map["a" := VNull];
    assert "a" in Fields(to.child) && "a" !in Fields(from.child);
    assert !Expressible(Meaning(from), Meaning(to));
    LowersAgree(LowerKey);
    MergeRoundTrip(from, from, to, false, false, LowerKey);
  }

  // ---------- names on which the orders disagree ----------

  /** The members B and a, in the order of strcmp, and the member B alone. */
  function Upper(rest: Nodes): Nodes { Node("B", True, rest) }

  function Both(): Nodes { Upper(Node("a", True, End)) }

  /** What takes B out, because the walk meets a first: B is set, a is removed, and B is removed. */
  function Spoiling(): Nodes { Node("B", True, Node("a", Null, Node("B", Null, End))) }

  lemma MixedCase()
    ensures CompareStrings("B", "a", true) < 0 && CompareStrings("a", "B", true) > 0
    ensures CompareStrings("a", "B", false) < 0 && CompareStrings("B", "a", false) > 0
    ensures CompareStrings("B", "B", true) == 0 && CompareStrings("a", "a", true) == 0
    ensures "a" != "B" && "o" != "a" && "o" != "B" && CompareStrings("o", "o", true) == 0
  {
    assert First("a", true) == 97 && First("B", true) == 66 && First("a", false) == 97 && First("B", false) == 98;
    assert "a"[1..] == "" && "B"[1..] == "" && "o"[1..] == "";
  }

  lemma SortedOne(key: string, v: Json, caseSensitive: bool)
    ensures SortNodes(Node(key, v, End), caseSensitive) == Node(key, v, End)
  {
    var x := Named(key, v);
    assert ToSeq(Node(key, v, End)) == [x] by { assert ToSeq(End) == []; }
    OneNode(x);
  }

  lemma OneNode(x: Named)
    ensures FromSeq([x]) == Node(x.key, x.value, End)
  {
    assert [x][1..] == [];
  }

  lemma TwoNodes(x: Named, y: Named)
    ensures FromSeq([x, y]) == Node(x.key, x.value, Node(y.key, y.value, End))
  {
    OneNode(y);
    assert [x, y][1..] == [y];
  }

  lemma SortedBoth()
    ensures SortNodes(Both(), true) == Both()
    ensures SortNodes(Both(), false) == Node("a", True, Upper(End))
  {
    hide CompareStrings;
    MixedCase();
    var p, q := Named("B", True), Named("a", True);
    var s := [p, q];
    assert ToSeq(Node("a", True, End)) == [q];
    assert ToSeq(Both()) == s;
    assert NameOf(s[0]) == "B" && NameOf(s[1]) == "a";
    assert S.Ascending(s, NameOf, true) && !S.Ascending(s, NameOf, false);
    assert s[..1] == [p] && s[1..] == [q];
    assert S.Merge([p], [q], NameOf) == [q, p];
    TwoNodes(p, q);
    TwoNodes(q, p);
  }

  lemma Walks()
    ensures GenerateMembers(Both(), Upper(End), true).patch == Node("a", Null, End)
    ensures GenerateMembers(Node("a", True, Upper(End)), Upper(End), false).patch == Spoiling()
  {
    hide CompareStrings, SortNodes;
    MixedCase();
    assert GenerateMembers(Upper(End), End, false).patch == Node("B", Null, End);
    assert GenerateMembers(Node("a", True, Upper(End)), End, false).patch == Node("a", Null, Node("B", Null, End));
  }

  lemma NestedCompared()
    ensures CompareJson(Object(Both()), Object(Upper(End)), true) == Compared(false, Object(Both()), Object(Upper(End)))
  {
    hide CompareStrings, SortNodes;
    MixedCase();
    SortedBoth();
    SortedOne("B", True, true);
    var r := CompareNodes(Node("a", True, End), End, true, true);
    assert r == ComparedNodes(false, Node("a", True, End), End);
    assert CompareJson(True, True, true) == Compared(true, True, True);
  }

  lemma FlatLoses()
    ensures Generate(Object(Both()), Object(Upper(End)), true).patch == Some(Object(Node("a", Null, End)))
    ensures Generate(Object(Both()), Object(Upper(End)), false).patch == Some(Object(Spoiling()))
  {
    hide CompareStrings, SortNodes, GenerateMembers;
    SortedBoth();
    SortedOne("B", True, true);
    SortedOne("B", True, false);
    Walks();
  }

  lemma NestedWalk()
    ensures GenerateMembers(Node("o", Object(Both()), End), Node("o", Object(Upper(End)), End), true).patch
         == Node("o", Object(Spoiling()), End)
  {
    hide CompareStrings, CompareJson, Generate;
    MixedCase();
    NestedCompared();
    FlatLoses();
    assert GenerateMembers(End, End, true) == GeneratedNodes(End, End, End);
  }

  lemma NestedLoses()
    ensures Generate(Object(Node("o", Object(Both()), End)), Object(Node("o", Object(Upper(End)), End)), true).patch
         == Some(Object(Node("o", Object(Spoiling()), End)))
  {
    hide SortNodes, GenerateMembers;
    NestedWalk();
    SortedOne("o", Object(Both()), true);
    SortedOne("o", Object(Upper(End)), true);
  }

  lemma MergedAway()
    ensures MergePatch(Some(Object(Both())), Object(Spoiling()), true) == Object(End)
  {
    hide CompareStrings;
    MixedCase();
    assert MergeInto(Upper(End), Node("B", Null, End), true) == End;
    assert MergeInto(Node("a", True, Upper(End)), Node("a", Null, Node("B", Null, End)), true) == End;
    assert FindName(Both(), "B", true) == 0;
  }

  /**
   * Sorted folding case, such names come out of step with the walk, and a member that stays is removed;
   * inside a member always so.
   */
  lemma GenerateMayLose()
    ensures Generate(Object(Both()), Object(Upper(End)), true).patch == Some(Object(Node("a", Null, End)))
    ensures Generate(Object(Both()), Object(Upper(End)), false).patch == Some(Object(Spoiling()))
    ensures Generate(Object(Node("o", Object(Both()), End)), Object(Node("o", Object(Upper(End)), End)), true).patch
         == Some(Object(Node("o", Object(Spoiling()), End)))
    ensures MergePatch(Some(Object(Both())), Object(Spoiling()), true) == Object(End)
  {
    hide Generate, MergePatch;
    FlatLoses();
    NestedLoses();
    MergedAway();
  }
}
