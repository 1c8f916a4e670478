/** Applying patches to trees with links: what Patching says holds as long as no patch takes out a child through a stale link. */
module LinkedPatching {
  import opened Basics
  import opened CStrings
  import opened JsonModel
  import opened Pointers
  import opened Sorting
  import opened Comparing
  import opened Rfc6902
  import opened Patching
  import opened Generating
  import opened Failing
  import opened Linking

  // ---------- the steps of apply_patch ----------

  datatype Taking = Missing | Spoilt | Taken(item: Tree, rest: Tree)

  /** The end of a patch: broken when it writes through a stale link, or moves from what is no pointer. */
  datatype Effect = Broken | Ends(status: int, tree: Tree)

  function TakeFrom(p: Tree, name: string): (r: Taking)
    requires Sound(p)
    ensures r.Missing? <==> DetachFrom(p.doc, name).None?
    ensures r.Spoilt? <==> p.links.stale && Chosen(p.doc, name) == Some(0)
    ensures r.Taken? ==> Sound(r.item) && Sound(r.rest) && DetachFrom(p.doc, name) == Some(Detached(r.item.doc, r.rest.doc))
    ensures r.Taken? && Clean(p.links) ==> Clean(r.item.links) && Clean(r.rest.links)
  {
    match Chosen(p.doc, name)
    case None => Missing
    case Some(k) =>
      match TakeKid(p, k)
      case None => Spoilt
      case Some((item, rest)) => Taken(item, rest)
  }

  function TakeUnder(t: Tree, parent: string, name: string, caseSensitive: bool): (r: Taking)
    requires Sound(t)
    ensures r.Missing? <==> DetachUnder(t.doc, parent, name, caseSensitive).None?
    ensures r.Taken? ==> Sound(r.item) && Sound(r.rest)
                         && DetachUnder(t.doc, parent, name, caseSensitive) == Some(Detached(r.item.doc, r.rest.doc))
    ensures Clean(t.links) ==> !r.Spoilt? && (r.Taken? ==> Clean(r.item.links) && Clean(r.rest.links))
  {
    match GetItem(t.doc, parent, caseSensitive)
    case None => Missing
    case Some(loc) =>
      match TakeFrom(TreeAt(t, loc), name)
      case Taken(item, rest) => Taken(item, PutTree(t, loc, rest))
      case other => other
  }

  function TakePath(t: Tree, path: string, caseSensitive: bool): (r: Taking)
    requires Sound(t)
    ensures r.Missing? <==> DetachPath(t.doc, path, caseSensitive).None?
    ensures r.Taken? ==> Sound(r.item) && Sound(r.rest)
                         && DetachPath(t.doc, path, caseSensitive) == Some(Detached(r.item.doc, r.rest.doc))
    ensures Clean(t.links) ==> !r.Spoilt? && (r.Taken? ==> Clean(r.item.links) && Clean(r.rest.links))
  {
    match LastSlash(path)
    case None => Missing
    case Some(i) => TakeUnder(t, path[..i], DecodePointer(path[i + 1..]), caseSensitive)
  }

  function AddOnto(p: Tree, name: string, item: Tree, caseSensitive: bool): (e: Effect)
    requires Sound(p) && Sound(item)
    ensures e.Broken? <==> p.links.stale && FindName(p.doc.child, name, caseSensitive) == 0
    ensures e.Ends? ==> Sound(e.tree) && Outcome(e.status, e.tree.doc) == AddInto(p.doc, name, item.doc, caseSensitive)
    ensures e.Ends? && Clean(p.links) && Clean(item.links) ==> Clean(e.tree.links)
  {
    match p.doc
    case Array(ns) =>
      if name == "-" then Ends(0, AddKid(p, "", item))
      else
        (match DecodeIndex(name)
         case None => Ends(11, p)
         case Some(k) => if k <= Length(ns) then Ends(0, InsertKid(p, k, item)) else Ends(10, p))
    case Object(ns) =>
      var k := FindName(ns, name, caseSensitive);
      if k < Length(ns) then
        (match TakeKid(p, k)
         case None => Broken
         case Some((_, rest)) => Ends(0, AddKid(rest, name, item)))
      else Ends(0, AddKid(p, name, item))
    case _ => Ends(9, p)
  }

  function AddBeneath(t: Tree, parent: string, name: string, item: Tree, caseSensitive: bool): (e: Effect)
    requires Sound(t) && Sound(item)
    ensures e.Ends? ==> Sound(e.tree)
                        && Outcome(e.status, e.tree.doc) == AddUnder(t.doc, parent, name, item.doc, caseSensitive)
    ensures Clean(t.links) && Clean(item.links) ==> e.Ends? && Clean(e.tree.links)
  {
    match GetItem(t.doc, parent, caseSensitive)
    case None => Ends(9, t)
    case Some(loc) =>
      match AddOnto(TreeAt(t, loc), name, item, caseSensitive)
      case Broken => Broken
      case Ends(status, p) => Ends(status, PutTree(t, loc, p))
  }

  function AddTree(t: Tree, path: string, item: Tree, caseSensitive: bool): (e: Effect)
    requires Sound(t) && Sound(item)
    ensures e.Ends? ==> Sound(e.tree) && Outcome(e.status, e.tree.doc) == AddPath(t.doc, path, item.doc, caseSensitive)
    ensures Clean(t.links) && Clean(item.links) ==> e.Ends? && Clean(e.tree.links)
  {
    match LastSlash(path)
    case None => Ends(9, t)
    case Some(i) => AddBeneath(t, path[..i], DecodePointer(path[i + 1..]), item, caseSensitive)
  }

  /** A test sorts the objects it compares. */
  function TestTree(t: Tree, path: string, value: Option<Json>, caseSensitive: bool): (e: Effect)
    requires Sound(t)
    ensures e.Ends? && Sound(e.tree) && Outcome(e.status, e.tree.doc) == ApplyTest(t.doc, path, value, caseSensitive)
  {
    match (GetItem(t.doc, path, caseSensitive), value)
    case (Some(loc), Some(v)) =>
      Ends(if CompareJson(At(t.doc, loc), v, caseSensitive).same then 0 else 1,
           PutTree(t, loc, CompareTree(TreeAt(t, loc), v, caseSensitive)))
    case _ => Ends(1, t)
  }

  function MoveOrCopy(t: Tree, path: string, from: Option<Json>, move: bool, caseSensitive: bool): (e: Effect)
    requires Sound(t)
    ensures e.Ends? ==> Sound(e.tree)
                        && Outcome(e.status, e.tree.doc) == ApplyMoveOrCopy(t.doc, path, from, move, caseSensitive)
    ensures Clean(t.links) && (move && from.Some? ==> from.value.Str?) ==> e.Ends? && Clean(e.tree.links)
  {
    match from
    case None => Ends(4, t)
    case Some(Str(source)) =>
      if move then
        (match TakePath(t, source, caseSensitive)
         case Missing => Ends(5, t)
         case Spoilt => Broken
         case Taken(item, rest) => AddTree(rest, path, item, caseSensitive))
      else
        (match GetItem(t.doc, source, caseSensitive)
         case None => Ends(5, t)
         case Some(loc) => AddTree(t, path, Fresh(At(t.doc, loc)), caseSensitive))
    case _ => if move then Broken else Ends(5, t)
  }

  /** Removing and replacing: the old value goes first. */
  function ClearAndAdd(t: Tree, r: Request, path: string, caseSensitive: bool): (e: Effect)
    requires Sound(t) && r.path == Some(Str(path)) && (r.opcode == REMOVE || r.opcode == REPLACE) && path != ""
    ensures e.Ends? ==> Sound(e.tree) && Outcome(e.status, e.tree.doc) == Carry(t.doc, r, caseSensitive)
    ensures Clean(t.links) ==> e.Ends? && Clean(e.tree.links)
  {
    match TakePath(t, path, caseSensitive)
    case Missing => Ends(13, t)
    case Spoilt => Broken
    case Taken(_, rest) =>
      if r.opcode == REMOVE then Ends(0, rest)
      else if r.value.None? then Ends(7, rest)
      else AddTree(rest, path, Fresh(r.value.value), caseSensitive)
  }

  /** The code reads the source of a move without looking whether it is a string. */
  predicate SourceReadable(r: Request) {
    r.opcode == MOVE && r.from.Some? ==> r.from.value.Str?
  }

  function Act(t: Tree, r: Request, caseSensitive: bool): (e: Effect)
    requires Sound(t)
    ensures e.Ends? ==> Sound(e.tree) && Outcome(e.status, e.tree.doc) == Carry(t.doc, r, caseSensitive)
    ensures Clean(t.links) && SourceReadable(r) ==> e.Ends? && (r.opcode != TEST ==> Clean(e.tree.links))
  {
    match r.path
    case Some(Str(path)) =>
      if r.opcode == INVALID then Ends(3, t)
      else if r.opcode == TEST then TestTree(t, path, r.value, caseSensitive)
      else if path == "" && r.opcode == REMOVE then Ends(0, Fresh(Invalid))
      else if path == "" && (r.opcode == REPLACE || r.opcode == ADD) then
        if r.value.Some? then Ends(0, Fresh(r.value.value)) else Ends(7, t)
      else if r.opcode == MOVE || r.opcode == COPY then MoveOrCopy(t, path, r.from, r.opcode == MOVE, caseSensitive)
      else if r.opcode == ADD then
        if r.value.None? then Ends(7, t) else AddTree(t, path, Fresh(r.value.value), caseSensitive)
      else ClearAndAdd(t, r, path, caseSensitive)
    case _ => Ends(2, t)
  }

  /** apply_patch: what it does to the document is what Patching says, unless it breaks. */
  function Apply(t: Tree, patch: Json, caseSensitive: bool): (e: Effect)
    requires Sound(t)
    ensures e.Ends? ==> Sound(e.tree) && Outcome(e.status, e.tree.doc) == ApplyPatch(t.doc, patch, caseSensitive)
    ensures Clean(t.links) && SourceReadable(ReadPatch(patch, caseSensitive)) ==>
      e.Ends? && (ReadPatch(patch, caseSensitive).opcode != TEST ==> Clean(e.tree.links))
  {
    Act(t, ReadPatch(patch, caseSensitive), caseSensitive)
  }

  /** Patches in order, up to the first that fails or breaks. */
  function ApplyList(t: Tree, patches: Nodes, caseSensitive: bool): (e: Effect)
    requires Sound(t)
    ensures e.Ends? ==> Sound(e.tree) && Outcome(e.status, e.tree.doc) == ApplyAll(t.doc, patches, caseSensitive)
    decreases patches
  {
    if patches.End? then Ends(0, t)
    else
      match Apply(t, patches.value, caseSensitive)
      case Broken => Broken
      case Ends(status, t') => if status != 0 then Ends(status, t') else ApplyList(t', patches.next, caseSensitive)
  }

  // ---------- exactly when a patch breaks ----------

  /** The path names the first member of an object with a stale link. */
  predicate NamesHead(t: Tree, path: seq<string>, caseSensitive: bool)
    requires Sound(t)
  {
    path != [] &&
    match GetItem(t.doc, PathString(Front(path)), caseSensitive)
    case None => false
    case Some(loc) => var p := TreeAt(t, loc); p.links.stale && p.doc.child.key == Last(path)
  }

  /** What an operation takes out, or replaces by adding to it, is the first member of an object with a stale link. */
  predicate Breaks(t: Tree, op: Op, caseSensitive: bool)
    requires Sound(t)
  {
    match op
    case Test(_, _) => false
    case Copy(from, path) => GetItem(t.doc, PathString(from), caseSensitive).Some? && NamesHead(t, path, caseSensitive)
    case Move(from, path) =>
      NamesHead(t, from, caseSensitive) ||
      (match TakePath(t, PathString(from), caseSensitive)
       case Taken(_, rest) => NamesHead(rest, path, caseSensitive)
       case _ => false)
    case _ => NamesHead(t, op.path, caseSensitive)
  }

  lemma TakePathSplits(t: Tree, path: seq<string>, caseSensitive: bool, ok: string -> bool)
    requires Sound(t) && Names(ok, caseSensitive) && path != [] && PlainPath(path, ok)
    ensures TakePath(t, PathString(path), caseSensitive)
         == TakeUnder(t, PathString(Front(path)), Last(path), caseSensitive)
  {
    NamesEither(ok, caseSensitive);
    hide Names, PathString, DecodePointer, TakeUnder;
    SplitPath(path, ok);
  }

  lemma AddTreeSplits(t: Tree, path: seq<string>, item: Tree, caseSensitive: bool, ok: string -> bool)
    requires Sound(t) && Sound(item) && Names(ok, caseSensitive) && path != [] && PlainPath(path, ok)
    ensures AddTree(t, PathString(path), item, caseSensitive)
         == AddBeneath(t, PathString(Front(path)), Last(path), item, caseSensitive)
  {
    NamesEither(ok, caseSensitive);
    hide Names, PathString, DecodePointer, AddBeneath;
    SplitPath(path, ok);
  }

  lemma TakesFirstIff(p: Tree, name: string)
    requires Sound(p) && FoldsRight(p.doc, name)
    ensures TakeFrom(p, name).Spoilt? <==> p.links.stale && p.doc.child.key == name
  {
  }

  lemma TakesHeadIff(t: Tree, path: seq<string>, caseSensitive: bool, ok: string -> bool)
    requires Sound(t) && Names(ok, caseSensitive) && PlainPath(path, ok) && DetachRight(t.doc, path, caseSensitive)
    ensures TakePath(t, PathString(path), caseSensitive).Spoilt? <==> NamesHead(t, path, caseSensitive)
  {
    if path == [] {
      assert PathString([]) == "";
    } else {
      hide PathString, Names, GetItem, TreeAt, PutTree, PlainPath, TakePath, TakeFrom, FoldsRight, Sound;
      TakePathSplits(t, path, caseSensitive, ok);
      var loc := GetItem(t.doc, PathString(Front(path)), caseSensitive);
      if loc.Some? { TakesFirstIff(TreeAt(t, loc.value), Last(path)); }
    }
  }

  lemma AddsHeadIff(t: Tree, path: seq<string>, item: Tree, caseSensitive: bool, ok: string -> bool)
    requires Sound(t) && Sound(item) && WellFormed(t.doc, ok) && Names(ok, caseSensitive) && PlainPath(path, ok)
    ensures AddTree(t, PathString(path), item, caseSensitive).Broken? <==> NamesHead(t, path, caseSensitive)
  {
    if path == [] {
      assert PathString([]) == "";
    } else {
      hide PathString, Names, GetItem, TreeAt, PutTree;
      FrontIsPlain(path, ok);
      AddTreeSplits(t, path, item, caseSensitive, ok);
      LeadsWhereRead(t.doc, Front(path), caseSensitive, ok);
      var loc := GetItem(t.doc, PathString(Front(path)), caseSensitive);
      if loc.Some? && At(t.doc, loc.value).Object? {
        FindLower(At(t.doc, loc.value).child, Last(path), caseSensitive, ok);
      }
    }
  }

  lemma {:induction false} PutTreeAt(t: Tree, loc: seq<nat>, x: Tree)
    requires Sound(t) && Sound(x) && HasNode(t.doc, loc)
    ensures HasNode(PutTree(t, loc, x).doc, loc) && TreeAt(PutTree(t, loc, x), loc) == x
    decreases loc
  {
    if loc != [] {
      PutTreeAt(Kid(t, loc[0]), loc[1..], x);
      KidFits(t.doc.child, t.links.kids, loc[0]);
    }
  }

  /** Once a member has been taken out, there is none of its name, and adding one does not break. */
  lemma GoneIsNoHead(t: Tree, path: seq<string>, caseSensitive: bool, ok: string -> bool)
    requires Sound(t) && WellFormed(t.doc, ok) && Names(ok, caseSensitive) && PlainPath(path, ok)
    requires DetachRight(t.doc, path, caseSensitive) && TakePath(t, PathString(path), caseSensitive).Taken?
    ensures !NamesHead(TakePath(t, PathString(path), caseSensitive).rest, path, caseSensitive)
  {
    if path != [] {
      hide PathString, Names, GetItem, TreeAt, PutTree, TakeKid;
      FrontIsPlain(path, ok);
      TakePathSplits(t, path, caseSensitive, ok);
      LeadsWhereRead(t.doc, Front(path), caseSensitive, ok);
      var s := PathString(Front(path));
      var loc := GetItem(t.doc, s, caseSensitive).value;
      var p := TreeAt(t, loc);
      var less := TakeFrom(p, Last(path)).rest;
      GetAfterPut(t.doc, s, less.doc, caseSensitive);
      PutTreeAt(t, loc, less);
      if less.links.stale { NoSuchMember(p, Last(path), ok); }
    }
  }

  lemma NoSuchMember(p: Tree, name: string, ok: string -> bool)
    requires Sound(p) && WellFormed(p.doc, ok) && p.doc.Object? && FoldsRight(p.doc, name) && TakeFrom(p, name).Taken?
    ensures var rest := TakeFrom(p, name).rest.doc; rest.Object? && (rest.child.Node? ==> rest.child.key != name)
  {
    var k := FindKey(p.doc.child, name);
    RemoveField(p.doc.child, k);
  }

  /** A patch breaks exactly if the operation does, whatever the tree. */
  lemma BreaksIff(t: Tree, patch: Json, op: Op, caseSensitive: bool, ok: string -> bool)
    requires Names(ok, caseSensitive) && Fair(t.doc, op, caseSensitive, ok)
    requires Sound(t) && WellFormed(t.doc, ok) && Encodes(patch, op, caseSensitive, ok)
    ensures Apply(t, patch, caseSensitive).Broken? <==> Breaks(t, op, caseSensitive)
  {
    hide PathString, Names, GetItem, WellFormed, PlainPath, NamesHead, TakePath, AddTree, DetachRight, Sound, Agreeing;
    var r := ReadPatch(patch, caseSensitive);
    PathStringEmpty(op.path);
    match op
    case Add(path, _) =>
      if path == [] { NoHeadAtRoot(t, caseSensitive); } else { AddsHeadIff(t, path, Fresh(r.value.value), caseSensitive, ok); }
    case Copy(from, path) => CopyBreaks(t, r, op, caseSensitive, ok);
    case Move(from, path) => MoveBreaks(t, r, op, caseSensitive, ok);
    case Test(_, _) =>
    case _ => ClearBreaks(t, r, op, caseSensitive, ok);
  }

  lemma NoHeadAtRoot(t: Tree, caseSensitive: bool)
    requires Sound(t)
    ensures !NamesHead(t, [], caseSensitive)
  {
  }

  lemma CopyBreaks(t: Tree, r: Request, op: Op, caseSensitive: bool, ok: string -> bool)
    requires op.Copy? && Names(ok, caseSensitive) && Sound(t) && WellFormed(t.doc, ok) && Asks(r, op, ok)
    ensures Act(t, r, caseSensitive).Broken? <==> Breaks(t, op, caseSensitive)
  {
    hide PathString, Names, GetItem, WellFormed, NamesHead, AddTree, Sound;
    var loc := GetItem(t.doc, PathString(op.from), caseSensitive);
    if loc.Some? { AddsHeadIff(t, op.path, Fresh(At(t.doc, loc.value)), caseSensitive, ok); }
  }

  lemma MoveBreaks(t: Tree, r: Request, op: Op, caseSensitive: bool, ok: string -> bool)
    requires op.Move? && Names(ok, caseSensitive) && Sound(t) && WellFormed(t.doc, ok) && Asks(r, op, ok)
    requires DetachRight(t.doc, op.from, caseSensitive)
    ensures Act(t, r, caseSensitive).Broken? <==> Breaks(t, op, caseSensitive)
  {
    hide PathString, Names, WellFormed, NamesHead, AddTree, TakePath, Sound, AsRead, RemoveAt, Lookup, Act, PlainPath;
    ActMoves(t, r, PathString(op.path), caseSensitive);
    TakesHeadIff(t, op.from, caseSensitive, ok);
    DetachPathDoes(t.doc, op.from, caseSensitive, ok);
    var taking := TakePath(t, PathString(op.from), caseSensitive);
    if taking.Taken? { AddsHeadIff(taking.rest, op.path, taking.item, caseSensitive, ok); }
  }

  lemma ActClears(t: Tree, r: Request, path: string, caseSensitive: bool)
    requires Sound(t) && r.path == Some(Str(path)) && (r.opcode == REMOVE || r.opcode == REPLACE) && path != ""
    ensures Act(t, r, caseSensitive) == ClearAndAdd(t, r, path, caseSensitive)
  {
  }

  lemma ActMoves(t: Tree, r: Request, path: string, caseSensitive: bool)
    requires Sound(t) && r.path == Some(Str(path)) && (r.opcode == MOVE || r.opcode == COPY)
    ensures Act(t, r, caseSensitive) == MoveOrCopy(t, path, r.from, r.opcode == MOVE, caseSensitive)
  {
  }

  lemma ClearBreaks(t: Tree, r: Request, op: Op, caseSensitive: bool, ok: string -> bool)
    requires (op.Remove? || op.Replace?) && Names(ok, caseSensitive) && Sound(t) && WellFormed(t.doc, ok) && Asks(r, op, ok)
    requires DetachRight(t.doc, op.path, caseSensitive)
    ensures Act(t, r, caseSensitive).Broken? <==> Breaks(t, op, caseSensitive)
  {
    PathStringEmpty(op.path);
    if op.path == [] {
      NoHeadAtRoot(t, caseSensitive);
    } else {
      hide PathString, Names, WellFormed, NamesHead, AddTree, TakePath, Sound, AsRead, RemoveAt, Lookup, Act;
      ActClears(t, r, PathString(op.path), caseSensitive);
      TakesHeadIff(t, op.path, caseSensitive, ok);
      DetachPathDoes(t.doc, op.path, caseSensitive, ok);
      var taking := TakePath(t, PathString(op.path), caseSensitive);
      if taking.Taken? && op.Replace? {
        AddsHeadIff(taking.rest, op.path, Fresh(r.value.value), caseSensitive, ok);
        GoneIsNoHead(t, op.path, caseSensitive, ok);
      }
    }
  }

  // ---------- the RFC ----------

  /** What apply_patch does with every operation, as long as it does not break. */
  lemma ApplyDoes(t: Tree, patch: Json, op: Op, caseSensitive: bool, ok: string -> bool)
    requires Names(ok, caseSensitive) && Fair(t.doc, op, caseSensitive, ok)
    requires Sound(t) && WellFormed(t.doc, ok) && Encodes(patch, op, caseSensitive, ok)
    ensures match Apply(t, patch, caseSensitive)
      case Broken => Breaks(t, op, caseSensitive)
      case Ends(status, t') =>
        && !Breaks(t, op, caseSensitive) && Sound(t')
        && if op == Remove([]) then status == 0 && t'.doc == Invalid
           else Yields(Outcome(status, t'.doc), DoneBy(Meaning(t.doc), op), ok)
  {
    hide WellFormed, Meaning, ApplyPatch, DoneBy, Breaks, Encodes, Names, Fair, Yields;
    BreaksIff(t, patch, op, caseSensitive, ok);
    Patching.ApplyDoes(t.doc, patch, op, caseSensitive, ok);
  }

  /** apply_patch carries out every operation the RFC allows, but for moves and copies onto the root, unless it breaks. */
  lemma ApplyImplementsRfc(t: Tree, patch: Json, op: Op, caseSensitive: bool, ok: string -> bool)
    requires Names(ok, caseSensitive) && Fair(t.doc, op, caseSensitive, ok)
    requires Sound(t) && WellFormed(t.doc, ok) && Encodes(patch, op, caseSensitive, ok)
    requires Run(Meaning(t.doc), op).Some? && (op.Move? || op.Copy? ==> op.path != [])
    ensures match Apply(t, patch, caseSensitive)
      case Broken => Breaks(t, op, caseSensitive)
      case Ends(status, t') =>
        && !Breaks(t, op, caseSensitive) && Sound(t')
        && status == 0 && WellFormed(t'.doc, ok) && Meaning(t'.doc) == Run(Meaning(t.doc), op).value
  {
    hide WellFormed, Meaning, ApplyPatch, Run, Breaks, Encodes, Names, Fair;
    BreaksIff(t, patch, op, caseSensitive, ok);
    Patching.ApplyImplementsRfc(t.doc, patch, op, caseSensitive, ok);
  }

  /** Where apply_patch and the RFC agree on success and failure, unless it breaks. */
  lemma SucceedsIffRfcAllows(t: Tree, patch: Json, op: Op, caseSensitive: bool, ok: string -> bool)
    requires Names(ok, caseSensitive) && Fair(t.doc, op, caseSensitive, ok)
    requires Sound(t) && WellFormed(t.doc, ok) && Encodes(patch, op, caseSensitive, ok)
    ensures var v := Meaning(t.doc);
      match Apply(t, patch, caseSensitive)
      case Broken => Breaks(t, op, caseSensitive)
      case Ends(status, t') =>
        && !Breaks(t, op, caseSensitive)
        && (status == 0 ==> (Run(v, op).Some? <==> Follows(v, op)))
        && (status != 0 ==> (Run(v, op).None? <==> !OntoRoot(v, op)))
  {
    hide WellFormed, Meaning, ApplyPatch, Run, Follows, OntoRoot, Breaks, Encodes, Names, Fair;
    BreaksIff(t, patch, op, caseSensitive, ok);
    Patching.SucceedsIffRfcAllows(t.doc, patch, op, caseSensitive, ok);
  }

  /** A test does not change what the document means, but it can leave stale links. */
  lemma TestPasses(t: Tree, patch: Json, path: seq<string>, x: Value, caseSensitive: bool, ok: string -> bool)
    requires Names(ok, caseSensitive) && Agreeing(ok) && Sound(t) && WellFormed(t.doc, ok)
    requires Encodes(patch, Test(path, x), caseSensitive, ok)
    ensures var e := Apply(t, patch, caseSensitive);
      && e.Ends? && Sound(e.tree) && WellFormed(e.tree.doc, ok) && Meaning(e.tree.doc) == Meaning(t.doc)
      && (e.status == 0 <==> Lookup(Meaning(t.doc), AsRead(Meaning(t.doc), path)) == Some(x))
  {
    hide WellFormed, Meaning, Names, Agreeing, Lookup, AsRead, PathString, ApplyTest, Carry, PlainPath;
    var r := ReadPatch(patch, caseSensitive);
    CarryTest(t.doc, r, PathString(path), caseSensitive);
    TestDoes(t.doc, path, r.value.value, caseSensitive, ok);
  }

  // ---------- lists of patches ----------

  predicate NoRootTargets(ops: Ops) {
    ops.Done? || ((ops.op.Move? || ops.op.Copy? ==> ops.op.path != []) && NoRootTargets(ops.rest))
  }

  /** A list of patches that the RFC allows is carried out, unless one of them breaks. */
  lemma {:induction false} ListImplementsRfc(t: Tree, patches: Nodes, ops: Ops, caseSensitive: bool, ok: string -> bool)
    requires Plain(ok) && Sound(t) && WellFormed(t.doc, ok) && EncodesAll(patches, ops, caseSensitive, ok)
    requires RunAll(Meaning(t.doc), ops).Some? && NoRootTargets(ops)
    ensures var e := ApplyList(t, patches, caseSensitive);
      e.Ends? ==> Achieves(Outcome(e.status, e.tree.doc), RunAll(Meaning(t.doc), ops), ok)
    decreases patches
  {
    hide WellFormed, Meaning, Run, Plain, Encodes, Breaks, Names, Fair, Sound;
    if patches.Node? {
      EncodedIsFair(t.doc, patches.value, ops.op, caseSensitive, ok);
      ApplyImplementsRfc(t, patches.value, ops.op, caseSensitive, ok);
      var e := Apply(t, patches.value, caseSensitive);
      if e.Ends? { ListImplementsRfc(e.tree, patches.next, ops.rest, caseSensitive, ok); }
    }
  }

  lemma EncodedIsFair(doc: Json, patch: Json, op: Op, caseSensitive: bool, ok: string -> bool)
    requires Plain(ok) && WellFormed(doc, ok) && Encodes(patch, op, caseSensitive, ok)
    ensures Names(ok, caseSensitive) && Fair(doc, op, caseSensitive, ok)
  {
    hide WellFormed, Plain, Names, Fair, PlainPath;
    PlainIsFair(doc, op, caseSensitive, ok);
  }

  /** Only tests leave stale links: without them nothing breaks in a document with clean links. */
  predicate NoTests(patches: Nodes, caseSensitive: bool) {
    patches.End? ||
    (var r := ReadPatch(patches.value, caseSensitive);
     r.opcode != TEST && SourceReadable(r) && NoTests(patches.next, caseSensitive))
  }

  lemma {:induction false} NothingBreaks(t: Tree, patches: Nodes, caseSensitive: bool)
    requires Sound(t) && Clean(t.links) && NoTests(patches, caseSensitive)
    ensures var e := ApplyList(t, patches, caseSensitive); e.Ends? && Clean(e.tree.links)
    decreases patches
  {
    hide ReadPatch, Sound, Clean;
    if patches.Node? {
      var e := Apply(t, patches.value, caseSensitive);
      if e.status == 0 { NothingBreaks(e.tree, patches.next, caseSensitive); }
    }
  }

  lemma {:induction false} EditsHaveNoTests(patches: Nodes, ops: Ops, caseSensitive: bool, ok: string -> bool)
    requires EncodesAll(patches, ops, caseSensitive, ok) && EditsOnly(ops)
    ensures NoTests(patches, caseSensitive) && NoRootTargets(ops)
    decreases patches
  {
    hide PathString, PlainPath, WellFormed, ReadPatch;
    if patches.Node? { EditsHaveNoTests(patches.next, ops.rest, caseSensitive, ok); }
  }

  /**
   * Applying the generated patches gives the target: always for a document with clean links, such as a copy;
   * and for any other, such as the tree that generating has just sorted, unless a patch breaks.
   */
  lemma PatchRoundTrip(t: Tree, from: Json, to: Json, caseSensitive: bool, memory: Memory, ok: string -> bool)
    requires Agreeing(ok) && forall k :: ok(k) ==> '~' !in k && '/' !in k
    requires Sound(t) && WellFormed(t.doc, ok) && WellFormed(from, ok) && WellFormed(to, ok)
    requires Meaning(t.doc) == Meaning(from)
    ensures var e := ApplyList(t, Patches("", from, to, caseSensitive, memory), caseSensitive);
      && (e.Ends? ==> e.status == 0 && Meaning(e.tree.doc) == Meaning(to)
                      && Same(e.tree.doc, to, true) && Same(e.tree.doc, to, false))
      && (Clean(t.links) ==> e.Ends?)
  {
    hide WellFormed, Meaning, Agreeing, Sound, Clean, Same;
    Generating.PatchRoundTrip(t.doc, from, to, caseSensitive, memory, ok);
    if Clean(t.links) {
      PatchesHaveNoTests(from, to, caseSensitive, memory, ok);
      NothingBreaks(t, Patches("", from, to, caseSensitive, memory), caseSensitive);
    }
  }

  lemma PatchesHaveNoTests(from: Json, to: Json, caseSensitive: bool, memory: Memory, ok: string -> bool)
    requires Agreeing(ok) && forall k :: ok(k) ==> '~' !in k && '/' !in k
    requires WellFormed(from, ok) && WellFormed(to, ok)
    ensures NoTests(Patches("", from, to, caseSensitive, memory), caseSensitive)
  {
    hide WellFormed, Plain, Agreeing, Patches, Plan;
    var more := k => ok(k) || IndexLike(k);
    MoreIsPlain(ok, more);
    WeakerKeys(from, ok, more);
    WeakerKeys(to, ok, more);
    assert PathString([]) == "";
    PatchesEncodePlan([], from, to, caseSensitive, memory, more);
    PlanEdits([], from, to);
    EditsHaveNoTests(Patches("", from, to, caseSensitive, memory), Plan([], from, to), caseSensitive, more);
  }

  // ---------- a test that breaks what follows ----------

  lemma ComparedObject(t: Tree, b: Json, caseSensitive: bool)
    requires Sound(t) && t.doc.Object? && t.doc.child.Node? && b.Object?
    ensures var r, sorted := CompareTree(t, b, caseSensitive), SortTree(t, caseSensitive);
      && r.links.stale == sorted.links.stale
      && r.doc.Object? && r.doc.child.Node? && sorted.doc.child.Node? && r.doc.child.key == sorted.doc.child.key
  {
    hide Sort;
    var ns := SortNodes(t.doc.child, caseSensitive);
    assert |Sort(ToSeq(t.doc.child), NameOf, caseSensitive)| == Length(t.doc.child) > 0;
    assert ns.Node?;
    SortSize(t.doc.child, caseSensitive);
    SortSize(b.child, caseSensitive);
  }

  /** The tournament is won by another member than the first: then sorting moves it to the front. */
  predicate FirstMoves(t: Tree, caseSensitive: bool) {
    t.doc.Object? && t.doc.child.Node? && Winner(ToSeq(t.doc.child), NameOf, caseSensitive) != ToSeq(t.doc.child)[0]
  }

  lemma SortedFirst(t: Tree, caseSensitive: bool)
    requires Sound(t) && FirstMoves(t, caseSensitive)
    ensures var r := SortTree(t, caseSensitive);
      r.links.stale && r.doc.child.Node? && r.doc.child.key == Winner(ToSeq(t.doc.child), NameOf, caseSensitive).key
  {
    hide Sort, Winner;
    WinnerIsFirst(ToSeq(t.doc.child), NameOf, caseSensitive);
  }

  /** After a test of the whole document in which the first member moves, removing the new first member breaks. */
  lemma TestThenRemoveBreaks(t: Tree, test: Json, remove: Json, x: Value, caseSensitive: bool, ok: string -> bool)
    requires Plain(ok) && Sound(t) && WellFormed(t.doc, ok) && FirstMoves(t, caseSensitive)
    requires Encodes(test, Test([], x), caseSensitive, ok) && Meaning(t.doc) == x
    requires Encodes(remove, Remove([Winner(ToSeq(t.doc.child), NameOf, caseSensitive).key]), caseSensitive, ok)
    ensures ApplyList(t, Node("", test, Node("", remove, End)), caseSensitive).Broken?
  {
    hide Sound, Winner, SortTree, CompareTree, WellFormed, Plain, Encodes;
    var key := Winner(ToSeq(t.doc.child), NameOf, caseSensitive).key;
    TestedRoot(t, test, x, caseSensitive, ok);
    EncodedIsFair(t.doc, test, Test([], x), caseSensitive, ok);
    PlainNames(ok, caseSensitive);
    TestPasses(t, test, [], x, caseSensitive, ok);
    var e := Apply(t, test, caseSensitive);
    assert Lookup(Meaning(t.doc), AsRead(Meaning(t.doc), [])) == Some(x);
    EncodedIsFair(e.tree.doc, remove, Remove([key]), caseSensitive, ok);
    BreaksIff(e.tree, remove, Remove([key]), caseSensitive, ok);
    RootHead(e.tree, key, caseSensitive);
    assert ApplyList(e.tree, Node("", remove, End), caseSensitive).Broken?;
  }

  lemma RootHead(t: Tree, key: string, caseSensitive: bool)
    requires Sound(t) && t.links.stale && t.doc.child.key == key
    ensures NamesHead(t, [key], caseSensitive)
  {
    assert Front([key]) == [] && PathString([]) == "" && Last([key]) == key;
    assert GetItem(t.doc, "", caseSensitive) == Some([]) && TreeAt(t, []) == t;
  }

  lemma TestedRoot(t: Tree, test: Json, x: Value, caseSensitive: bool, ok: string -> bool)
    requires Sound(t) && FirstMoves(t, caseSensitive) && Meaning(t.doc) == x && Encodes(test, Test([], x), caseSensitive, ok)
    ensures var e := Apply(t, test, caseSensitive);
      e.Ends? && e.tree.links.stale && e.tree.doc.Object? && e.tree.doc.child.Node?
      && e.tree.doc.child.key == Winner(ToSeq(t.doc.child), NameOf, caseSensitive).key
  {
    hide Sound, Winner, SortTree, CompareTree, WellFormed, CompareJson, ToSeq, PlainPath;
    var v := ReadPatch(test, caseSensitive).value.value;
    assert v.Object?;
    assert PathString([]) == "" && GetItem(t.doc, "", caseSensitive) == Some([]) && TreeAt(t, []) == t;
    ComparedObject(t, v, caseSensitive);
    SortedFirst(t, caseSensitive);
    assert PutTree(t, [], CompareTree(t, v, caseSensitive)) == CompareTree(t, v, caseSensitive);
  }

  /** The document {"b":1,"a":2} is one of that kind; "a" is the member that cannot be removed after a test. */
  lemma TestedPairBreaks(x: Json, y: Json)
    ensures var t := Fresh(Object(Node("b", x, Node("a", y, End))));
      FirstMoves(t, false) && Winner(ToSeq(t.doc.child), NameOf, false).key == "a"
  {
    var p, q := Named("b", x), Named("a", y);
    var ns := Node("b", x, Node("a", y, End));
    assert ToSeq(ns) == [p, q] by { assert ToSeq(ns.next) == [q]; }
    assert [p, q][..1] == [p] && [p, q][1..] == [q];
    assert CompareStrings("b", "a", false) > 0;
    assert NameOf(p) == "b" && NameOf(q) == "a";
    assert CompareStrings(NameOf([p, q][0]), NameOf([p, q][1]), false) > 0;
  }
}
