/** What a failing patch leaves behind (section 5 of RFC 6902 expects the document as it was). */
module Failing {
  import opened Basics
  import opened CStrings
  import opened JsonModel
  import opened Pointers
  import opened Comparing
  import opened Patching

  // ---------- exchanging a node and the meaning of the tree ----------

  lemma ChildMeaning(j: Json, i: nat, x: Json, ok: string -> bool)
    requires i < Width(j) && WellFormed(j, ok)
    ensures WellFormed(Child(j, i), ok)
    ensures Meaning(SetChild(j, i, x)) == Meaning(j) <==> Meaning(x) == Meaning(Child(j, i))
    ensures WellFormed(x, ok) ==> WellFormed(SetChild(j, i, x), ok)
  {
    NthMeaning(j.child, i, ok);
    SetMeaning(j.child, i, x, ok);
    if j.Array? {
      assert Items(j.child)[i := Meaning(x)][i] == Meaning(x);
    } else {
      MemberMeaning(j.child, i, x, ok);
    }
  }

  lemma MemberMeaning(ns: Nodes, i: nat, x: Json, ok: string -> bool)
    requires i < Length(ns) && Distinct(ns)
    ensures Fields(SetNth(ns, i, x)) == Fields(ns) <==> Meaning(x) == Meaning(Nth(ns, i))
  {
    var k := KeyAt(ns, i);
    NthMeaning(ns, i, ok);
    SetField(ns, i, x);
    DistinctFind(ns, i);
    FirstCounts(ns, k);
    assert Fields(ns)[k := Meaning(x)][k] == Meaning(x);
  }

  /** Exchanging a node changes the meaning of the tree exactly if it changes the meaning of the node. */
  lemma {:induction false} PutMeaning(j: Json, loc: seq<nat>, x: Json, ok: string -> bool)
    requires HasNode(j, loc) && WellFormed(j, ok)
    ensures WellFormed(At(j, loc), ok)
    ensures Meaning(Put(j, loc, x)) == Meaning(j) <==> Meaning(x) == Meaning(At(j, loc))
    ensures WellFormed(x, ok) ==> WellFormed(Put(j, loc, x), ok)
    decreases loc
  {
    if loc != [] {
      var c := Child(j, loc[0]);
      ChildMeaning(j, loc[0], Put(c, loc[1..], x), ok);
      PutMeaning(c, loc[1..], x, ok);
    }
  }

  lemma {:induction false} FindAfterSet(ns: Nodes, i: nat, x: Json, p: string, caseSensitive: bool)
    requires i < Length(ns)
    ensures FindMember(SetNth(ns, i, x), p, caseSensitive) == FindMember(ns, p, caseSensitive)
  {
    if i > 0 { FindAfterSet(ns.next, i - 1, x, p, caseSensitive); }
  }

  lemma SelectAfterSet(j: Json, i: nat, x: Json, p: string, caseSensitive: bool)
    requires i < Width(j)
    ensures SelectChild(SetChild(j, i, x), p, caseSensitive) == SelectChild(j, p, caseSensitive)
  {
    if j.Object? { FindAfterSet(j.child, i, x, p, caseSensitive); }
  }

  /** A pointer leads to the same place when what is there has been exchanged. */
  lemma {:induction false} GetAfterPut(j: Json, p: string, x: Json, caseSensitive: bool)
    requires GetItem(j, p, caseSensitive).Some?
    ensures var loc := GetItem(j, p, caseSensitive).value;
      && GetItem(Put(j, loc, x), p, caseSensitive) == Some(loc)
      && At(Put(j, loc, x), loc) == x
    decreases |p|
  {
    if p != "" && p[0] == '/' {
      var i := SelectChild(j, p[1..], caseSensitive).value;
      var c, rest := Child(j, i), SkipToken(p[1..]);
      var below := GetItem(c, rest, caseSensitive).value;
      assert ([i] + below)[1..] == below;
      SelectAfterSet(j, i, Put(c, below, x), p[1..], caseSensitive);
      GetAfterPut(c, rest, x, caseSensitive);
    }
  }

  // ---------- what the steps of apply_patch leave behind when they fail ----------

  lemma AddIntoFails(parent: Json, name: string, value: Json, caseSensitive: bool)
    requires AddInto(parent, name, value, caseSensitive).status != 0
    ensures AddInto(parent, name, value, caseSensitive).doc == parent
  {
  }

  lemma AddPathFails(doc: Json, path: string, value: Json, caseSensitive: bool, ok: string -> bool)
    requires WellFormed(doc, ok) && AddPath(doc, path, value, caseSensitive).status != 0
    ensures Meaning(AddPath(doc, path, value, caseSensitive).doc) == Meaning(doc)
  {
    hide AddInto, GetItem, Meaning, WellFormed, Put, DecodePointer;
    var slash := LastSlash(path);
    if slash.Some? {
      var loc, name := GetItem(doc, path[..slash.value], caseSensitive), DecodePointer(path[slash.value + 1..]);
      if loc.Some? {
        var parent := At(doc, loc.value);
        AddIntoFails(parent, name, value, caseSensitive);
        PutMeaning(doc, loc.value, parent, ok);
      }
    }
  }

  lemma DetachFromChanges(parent: Json, name: string, ok: string -> bool)
    requires WellFormed(parent, ok) && DetachFrom(parent, name).Some?
    ensures WellFormed(DetachFrom(parent, name).value.doc, ok)
    ensures Meaning(DetachFrom(parent, name).value.doc) != Meaning(parent)
  {
    var ns := parent.child;
    var k := if parent.Array? then DecodeIndex(name).value else FindName(ns, name, false);
    RemoveMeaning(ns, k, ok);
    if parent.Object? {
      RemoveField(ns, k);
      NthMeaning(ns, k, ok);
      assert KeyAt(ns, k) in Fields(ns) && KeyAt(ns, k) !in Fields(RemoveNth(ns, k));
    } else {
      assert |Items(RemoveNth(ns, k))| == |Items(ns)| - 1;
    }
  }

  lemma DetachPathChanges(doc: Json, path: string, caseSensitive: bool, ok: string -> bool)
    requires WellFormed(doc, ok) && DetachPath(doc, path, caseSensitive).Some?
    ensures var d := DetachPath(doc, path, caseSensitive).value; WellFormed(d.doc, ok) && Meaning(d.doc) != Meaning(doc)
  {
    hide DetachFrom, GetItem, Meaning, WellFormed, Put, DecodePointer;
    var i := LastSlash(path).value;
    var loc := GetItem(doc, path[..i], caseSensitive).value;
    var parent, name := At(doc, loc), DecodePointer(path[i + 1..]);
    PutMeaning(doc, loc, DetachFrom(parent, name).value.doc, ok);
    DetachFromChanges(parent, name, ok);
  }

  lemma RemovedFits(parent: Json, name: string, value: Json, caseSensitive: bool)
    requires DetachFrom(parent, name).Some?
    ensures AddInto(DetachFrom(parent, name).value.doc, name, value, caseSensitive).status == 0
  {
  }

  /** Where something has been taken out, something can be put in. */
  lemma DetachedFits(doc: Json, path: string, value: Json, caseSensitive: bool)
    requires DetachPath(doc, path, caseSensitive).Some?
    ensures AddPath(DetachPath(doc, path, caseSensitive).value.doc, path, value, caseSensitive).status == 0
  {
    hide DetachFrom, AddInto, GetItem, Put, DecodePointer;
    var i := LastSlash(path).value;
    var loc := GetItem(doc, path[..i], caseSensitive).value;
    var parent, name := At(doc, loc), DecodePointer(path[i + 1..]);
    GetAfterPut(doc, path[..i], DetachFrom(parent, name).value.doc, caseSensitive);
    RemovedFits(parent, name, value, caseSensitive);
  }

  lemma TestKeeps(doc: Json, path: string, value: Option<Json>, caseSensitive: bool, ok: string -> bool)
    requires Agreeing(ok)
    requires WellFormed(doc, ok) && (value.Some? ==> WellFormed(value.value, ok))
    ensures Meaning(ApplyTest(doc, path, value, caseSensitive).doc) == Meaning(doc)
  {
    var loc := GetItem(doc, path, caseSensitive);
    if loc.Some? && value.Some? {
      var node := At(doc, loc.value);
      PutMeaning(doc, loc.value, CompareJson(node, value.value, caseSensitive).a, ok);
      CompareJsonMeans(node, value.value, caseSensitive, ok);
    }
  }

  /**
   * The patches that fail with half their work done: a move that finds its source, but no place for it,
   * and a replacement that finds its target, but has no value.
   */
  ghost predicate HalfDone(doc: Json, r: Request, caseSensitive: bool) {
    match (r.opcode, r.path, r.from)
    case (MOVE, Some(Str(_)), Some(Str(from))) => DetachPath(doc, from, caseSensitive).Some?
    case (REPLACE, Some(Str(path)), _) => path != "" && r.value.None? && DetachPath(doc, path, caseSensitive).Some?
    case _ => false
  }

  /** A failing patch, with any pointers at all, leaves the meaning of the document as it was exactly if it is not one of them. */
  lemma FailureKeepsMeaningIff(doc: Json, patch: Json, caseSensitive: bool, ok: string -> bool)
    requires Agreeing(ok)
    requires WellFormed(doc, ok)
    requires var value := ReadPatch(patch, caseSensitive).value; value.Some? ==> WellFormed(value.value, ok)
    requires ApplyPatch(doc, patch, caseSensitive).status != 0
    ensures Meaning(ApplyPatch(doc, patch, caseSensitive).doc) == Meaning(doc)
       <==> !HalfDone(doc, ReadPatch(patch, caseSensitive), caseSensitive)
  {
    hide Meaning, WellFormed, AddPath, DetachPath, ApplyTest, ReadPatch;
    var r := ReadPatch(patch, caseSensitive);
    if r.path.Some? && r.path.value.Str? {
      var path := r.path.value.text;
      match r.opcode
      case TEST => TestKeeps(doc, path, r.value, caseSensitive, ok);
      case MOVE => MoveLeaves(doc, r, caseSensitive, ok);
      case COPY => CopyLeaves(doc, r, caseSensitive, ok);
      case REPLACE => ReplaceLeaves(doc, r, path, caseSensitive, ok);
      case ADD => if path != "" && r.value.Some? { AddPathFails(doc, path, r.value.value, caseSensitive, ok); }
      case _ =>
    }
  }

  lemma MoveLeaves(doc: Json, r: Request, caseSensitive: bool, ok: string -> bool)
    requires WellFormed(doc, ok) && r.path.Some? && r.path.value.Str? && r.opcode == MOVE
    requires Carry(doc, r, caseSensitive).status != 0
    ensures Meaning(Carry(doc, r, caseSensitive).doc) == Meaning(doc) <==> !HalfDone(doc, r, caseSensitive)
  {
    hide Meaning, WellFormed, AddPath, DetachPath;
    if HalfDone(doc, r, caseSensitive) {
      var d := DetachPath(doc, r.from.value.text, caseSensitive).value;
      DetachPathChanges(doc, r.from.value.text, caseSensitive, ok);
      AddPathFails(d.doc, r.path.value.text, d.item, caseSensitive, ok);
    }
  }

  lemma CopyLeaves(doc: Json, r: Request, caseSensitive: bool, ok: string -> bool)
    requires WellFormed(doc, ok) && r.path.Some? && r.path.value.Str? && r.opcode == COPY
    requires Carry(doc, r, caseSensitive).status != 0
    ensures Meaning(Carry(doc, r, caseSensitive).doc) == Meaning(doc)
  {
    hide Meaning, WellFormed, AddPath, GetItem;
    if r.from.Some? && r.from.value.Str? {
      var loc := GetItem(doc, r.from.value.text, caseSensitive);
      if loc.Some? { AddPathFails(doc, r.path.value.text, At(doc, loc.value), caseSensitive, ok); }
    }
  }

  lemma ReplaceLeaves(doc: Json, r: Request, path: string, caseSensitive: bool, ok: string -> bool)
    requires WellFormed(doc, ok) && r.path == Some(Str(path)) && r.opcode == REPLACE
    requires Carry(doc, r, caseSensitive).status != 0
    ensures Meaning(Carry(doc, r, caseSensitive).doc) == Meaning(doc) <==> !HalfDone(doc, r, caseSensitive)
  {
    hide Meaning, WellFormed, AddPath, DetachPath;
    if path != "" && DetachPath(doc, path, caseSensitive).Some? {
      DetachPathChanges(doc, path, caseSensitive, ok);
      if r.value.Some? { DetachedFits(doc, path, r.value.value, caseSensitive); }
    }
  }

  // ---------- what the statuses say ----------

  /** Adding fails without a parent, at a parent that is no container, behind the end of an array, or at what is no index. */
  lemma AddStatus(doc: Json, path: string, value: Json, caseSensitive: bool)
    ensures var status, slash := AddPath(doc, path, value, caseSensitive).status, LastSlash(path);
      if slash.None? then status == 9
      else
        var loc, name := GetItem(doc, path[..slash.value], caseSensitive), DecodePointer(path[slash.value + 1..]);
        if loc.None? then status == 9
        else
          match At(doc, loc.value)
          case Object(_) => status == 0
          case Array(ns) =>
            if name == "-" then status == 0
            else if DecodeIndex(name).None? then status == 11
            else if DecodeIndex(name).value > Length(ns) then status == 10
            else status == 0
          case _ => status == 9
  {
    hide GetItem, Put, DecodePointer, DecodeIndex;
  }

  lemma AddStatuses(doc: Json, path: string, value: Json, caseSensitive: bool)
    ensures AddPath(doc, path, value, caseSensitive).status in {0, 9, 10, 11}
  {
    hide GetItem, Put, DecodePointer, DecodeIndex, AddPath;
    AddStatus(doc, path, value, caseSensitive);
  }

  /** The value an add, a replace, a move or a copy is about to add, with the document it is added to. */
  function ToAdd(doc: Json, r: Request, path: string, caseSensitive: bool): Option<(Json, Json)> {
    match r.opcode
    case ADD => if r.value.Some? then Some((doc, r.value.value)) else None
    case REPLACE =>
      (match DetachPath(doc, path, caseSensitive)
       case Some(d) => if r.value.Some? then Some((d.doc, r.value.value)) else None
       case None => None)
    case MOVE =>
      (match r.from
       case Some(Str(f)) =>
         (match DetachPath(doc, f, caseSensitive) case Some(d) => Some((d.doc, d.item)) case None => None)
       case _ => None)
    case COPY =>
      (match r.from
       case Some(Str(f)) =>
         (match GetItem(doc, f, caseSensitive) case Some(loc) => Some((doc, At(doc, loc))) case None => None)
       case _ => None)
    case _ => None
  }

  /** The statuses of a patch with a string path and a known operation; the rest are those of adding. */
  lemma StatusMeans(doc: Json, r: Request, path: string, caseSensitive: bool)
    requires r.path == Some(Str(path)) && r.opcode != INVALID
    ensures var status, moves := Carry(doc, r, caseSensitive).status, r.opcode == MOVE || r.opcode == COPY;
      var clears := (r.opcode == REMOVE || r.opcode == REPLACE) && path != "";
      var adding := ToAdd(doc, r, path, caseSensitive);
      && (status == 1 <==> r.opcode == TEST && ApplyTest(doc, path, r.value, caseSensitive).status == 1)
      && (status == 4 <==> moves && r.from.None?)
      && (status == 5 <==> moves && r.from.Some? && adding.None?)
      && (status == 7
          <==> r.value.None? && (r.opcode == ADD || (r.opcode == REPLACE && !(clears && DetachPath(doc, path, caseSensitive).None?))))
      && (status == 13 <==> clears && DetachPath(doc, path, caseSensitive).None?)
      && (status in {9, 10, 11}
          ==> adding.Some? && status == AddPath(adding.value.0, path, adding.value.1, caseSensitive).status)
      && status in {0, 1, 4, 5, 7, 9, 10, 11, 13}
  {
    hide GetItem, DetachPath, AddPath, CompareJson;
    var adding := ToAdd(doc, r, path, caseSensitive);
    if adding.Some? { AddStatuses(adding.value.0, path, adding.value.1, caseSensitive); }
  }
}
