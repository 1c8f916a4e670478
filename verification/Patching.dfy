/**
 * Applying JSON patches to a tree, and how that carries out RFC 6902 on what the tree means. Links do not appear here;
 * LinkedPatching says when the code, which follows them, gets as far.
 */
module Patching {
  import opened Basics
  import opened CStrings
  import opened JsonModel
  import opened Pointers
  import opened Comparing
  import opened Rfc6902

  // ---------- apply_patch as a function ----------

  /** get_object_item; array elements have no names. */
  function FieldOf(j: Json, name: string, caseSensitive: bool): Option<Json> {
    if !j.Object? then None
    else
      var i := FindName(j.child, name, caseSensitive);
      if i < Length(j.child) then Some(Nth(j.child, i)) else None
  }

  datatype Opcode = INVALID | ADD | REMOVE | REPLACE | MOVE | COPY | TEST

  function DecodeOperation(patch: Json, caseSensitive: bool): Opcode {
    match FieldOf(patch, "op", caseSensitive)
    case Some(Str(name)) =>
      if name == "add" then ADD
      else if name == "remove" then REMOVE
      else if name == "replace" then REPLACE
      else if name == "move" then MOVE
      else if name == "copy" then COPY
      else if name == "test" then TEST
      else INVALID
    case _ => INVALID
  }

  /** The last slash, as strrchr finds it. */
  function LastSlash(path: string): (i: Option<nat>)
    ensures i.Some? ==> i.value < |path| && path[i.value] == '/'
  {
    if path == "" then None
    else if path[|path| - 1] == '/' then Some(|path| - 1)
    else LastSlash(path[..|path| - 1])
  }

  datatype Detached = Detached(item: Json, doc: Json)

  /** detach_path: the flag governs the way to the parent, the last name is always matched folding case. */
  function DetachPath(doc: Json, path: string, caseSensitive: bool): Option<Detached> {
    match LastSlash(path)
    case None => None
    case Some(i) => DetachUnder(doc, path[..i], DecodePointer(path[i + 1..]), caseSensitive)
  }

  function DetachUnder(doc: Json, parent: string, name: string, caseSensitive: bool): Option<Detached> {
    match GetItem(doc, parent, caseSensitive)
    case None => None
    case Some(loc) =>
      match DetachFrom(At(doc, loc), name)
      case None => None
      case Some(d) => Some(Detached(d.item, Put(doc, loc, d.doc)))
  }

  function DetachFrom(parent: Json, name: string): Option<Detached> {
    match Chosen(parent, name)
    case None => None
    case Some(k) => Some(Detached(Child(parent, k), parent.(child := RemoveNth(parent.child, k))))
  }

  /** The child that is taken out: an element by its index, a member by its name, always folding case. */
  function Chosen(parent: Json, name: string): (k: Option<nat>)
    ensures k.Some? ==> k.value < Width(parent)
  {
    match parent
    case Array(ns) =>
      (match DecodeIndex(name)
       case Some(k) => if k < Length(ns) then Some(k) else None
       case None => None)
    case Object(ns) =>
      var k := FindName(ns, name, false);
      if k < Length(ns) then Some(k) else None
    case _ => None
  }

  /** Folding case, the search meets the member of exactly that name, or there is none of either kind. */
  predicate FoldsRight(parent: Json, name: string) {
    parent.Object? ==> FindName(parent.child, name, false) == FindKey(parent.child, name)
  }

  datatype Outcome = Outcome(status: int, doc: Json)

  /** The members after a possible deletion and the addition of the new one at the end. */
  function ReplaceMember(ns: Nodes, name: string, value: Json, caseSensitive: bool): Nodes {
    var k := FindName(ns, name, caseSensitive);
    Append(if k < Length(ns) then RemoveNth(ns, k) else ns, name, value)
  }

  function AddInto(parent: Json, name: string, value: Json, caseSensitive: bool): Outcome {
    match parent
    case Array(ns) =>
      if name == "-" then Outcome(0, Array(Append(ns, "", value)))
      else
        (match DecodeIndex(name)
         case None => Outcome(11, parent)
         case Some(k) =>
           if k <= Length(ns) then Outcome(0, Array(InsertNth(ns, k, "", value))) else Outcome(10, parent))
    case Object(ns) => Outcome(0, Object(ReplaceMember(ns, name, value, caseSensitive)))
    case _ => Outcome(9, parent)
  }

  /** The last part of apply_patch: add `value` at `path`. */
  function AddPath(doc: Json, path: string, value: Json, caseSensitive: bool): Outcome {
    match LastSlash(path)
    case None => Outcome(9, doc)
    case Some(i) => AddUnder(doc, path[..i], DecodePointer(path[i + 1..]), value, caseSensitive)
  }

  function AddUnder(doc: Json, parent: string, name: string, value: Json, caseSensitive: bool): Outcome {
    match GetItem(doc, parent, caseSensitive)
    case None => Outcome(9, doc)
    case Some(loc) =>
      var r := AddInto(At(doc, loc), name, value, caseSensitive);
      Outcome(r.status, Put(doc, loc, r.doc))
  }

  function ApplyTest(doc: Json, path: string, value: Option<Json>, caseSensitive: bool): Outcome {
    match (GetItem(doc, path, caseSensitive), value)
    case (Some(loc), Some(v)) =>
      var r := CompareJson(At(doc, loc), v, caseSensitive);
      Outcome(if r.same then 0 else 1, Put(doc, loc, r.a))
    case _ => Outcome(1, doc)
  }

  function ApplyMoveOrCopy(doc: Json, path: string, from: Option<Json>, move: bool, caseSensitive: bool): Outcome {
    match from
    case None => Outcome(4, doc)
    case Some(Str(source)) =>
      if move then
        (match DetachPath(doc, source, caseSensitive)
         case None => Outcome(5, doc)
         case Some(d) => AddPath(d.doc, path, d.item, caseSensitive))
      else
        (match GetItem(doc, source, caseSensitive)
         case None => Outcome(5, doc)
         case Some(loc) => AddPath(doc, path, At(doc, loc), caseSensitive))
    case _ => Outcome(5, doc)
  }

  /** The parts of a patch object that apply_patch looks at. */
  datatype Request = Request(path: Option<Json>, opcode: Opcode, value: Option<Json>, from: Option<Json>)

  function ReadPatch(patch: Json, caseSensitive: bool): Request {
    Request(FieldOf(patch, "path", caseSensitive), DecodeOperation(patch, caseSensitive),
            FieldOf(patch, "value", caseSensitive), FieldOf(patch, "from", caseSensitive))
  }

  /** A status other than 0 reports failure, though a replace may have removed its target by then. */
  function Carry(doc: Json, r: Request, caseSensitive: bool): Outcome {
    match r.path
    case Some(Str(path)) =>
      if r.opcode == INVALID then Outcome(3, doc)
      else if r.opcode == TEST then ApplyTest(doc, path, r.value, caseSensitive)
      else if path == "" && r.opcode == REMOVE then Outcome(0, Invalid)
      else if path == "" && (r.opcode == REPLACE || r.opcode == ADD) then
        if r.value.Some? then Outcome(0, r.value.value) else Outcome(7, doc)
      else if r.opcode == MOVE || r.opcode == COPY then
        ApplyMoveOrCopy(doc, path, r.from, r.opcode == MOVE, caseSensitive)
      else
        var cleared := if r.opcode == ADD then Some(Detached(Null, doc)) else DetachPath(doc, path, caseSensitive);
        if cleared.None? then Outcome(13, doc)
        else if r.opcode == REMOVE then Outcome(0, cleared.value.doc)
        else if r.value.None? then Outcome(7, cleared.value.doc)
        else AddPath(cleared.value.doc, path, r.value.value, caseSensitive)
    case _ => Outcome(2, doc)
  }

  /** apply_patch. */
  function ApplyPatch(doc: Json, patch: Json, caseSensitive: bool): Outcome {
    Carry(doc, ReadPatch(patch, caseSensitive), caseSensitive)
  }

  /** Patches in order, up to the first failure. */
  function ApplyAll(doc: Json, patches: Nodes, caseSensitive: bool): Outcome
    decreases patches
  {
    if patches.End? then Outcome(0, doc)
    else
      var r := ApplyPatch(doc, patches.value, caseSensitive);
      if r.status != 0 then r else ApplyAll(r.doc, patches.next, caseSensitive)
  }

  // ---------- what pointers made of plain tokens reach ----------

  /** Names that pointers carry unescaped and that the chosen comparison tells apart; indices are among them. */
  ghost predicate Names(ok: string -> bool, caseSensitive: bool) {
    && (forall k :: ok(k) ==> '~' !in k && '/' !in k)
    && ok("-") && (forall n: nat :: ok(Decimal(n)))
    && Separates(ok, caseSensitive)
  }

  lemma NamesEither(ok: string -> bool, caseSensitive: bool)
    requires Names(ok, caseSensitive)
    ensures Names(ok, true)
  {
  }

  /** Names that are right for everything: both comparisons put them in the same order. */
  ghost predicate Plain(ok: string -> bool) {
    Names(ok, false) && Agreeing(ok)
  }

  lemma PlainNames(ok: string -> bool, caseSensitive: bool)
    requires Plain(ok)
    ensures Names(ok, caseSensitive) && Separates(ok, false) && Agreeing(ok)
  {
    AgreeingSeparates(ok, caseSensitive);
  }

  ghost predicate PlainPath(path: seq<string>, ok: string -> bool) {
    forall i :: 0 <= i < |path| ==> ok(path[i])
  }

  function PathString(path: seq<string>): string {
    if path == [] then "" else "/" + path[0] + PathString(path[1..])
  }

  lemma PathStringEnds(path: seq<string>)
    ensures TokenEnds(PathString(path))
  {
  }

  lemma {:induction false} PathStringSnoc(path: seq<string>, token: string)
    ensures PathString(path + [token]) == PathString(path) + "/" + token
  {
    if path == [] {
      assert [] + [token] == [token] && [token][1..] == [];
      assert PathString([token]) == "/" + token + "";
    } else {
      assert (path + [token])[1..] == path[1..] + [token] && (path + [token])[0] == path[0];
      PathStringSnoc(path[1..], token);
      assert PathString(path + [token]) == "/" + path[0] + (PathString(path[1..]) + "/" + token);
    }
  }

  lemma {:induction false} FindMemberIsFindKey(ns: Nodes, token: string, rest: string, caseSensitive: bool, ok: string -> bool)
    requires Names(ok, caseSensitive)
    requires KeysOk(ns, ok) && ok(token) && TokenEnds(rest)
    ensures FindMember(ns, token + rest, caseSensitive) == FindKey(ns, token)
  {
    if ns.Node? {
      MatchMeansSame(ns.key, token, rest, caseSensitive);
      SameFoldedSelf(token);
      FindMemberIsFindKey(ns.next, token, rest, caseSensitive, ok);
    }
  }

  /** Where the token meets an array, the decoder reads it as the RFC does. */
  predicate ReadRight(v: Value, token: string) {
    v.VArray? ==> !Misread(token)
  }

  lemma SelectItem(ns: Nodes, token: string, rest: string, ok: string -> bool)
    requires Names(ok, true)
    requires ValuesWellFormed(ns, ok) && ok(token) && TokenEnds(rest)
    ensures var k := DecodeIndex(token + rest);
      && (IsIndex(token) ==> k == Some(NumberOf(token)))
      && (!IsIndex(token) && !Misread(token) ==> k == None)
    ensures IsIndex(token) && NumberOf(token) < Length(ns) ==>
      Items(ns)[NumberOf(token)] == Meaning(Nth(ns, NumberOf(token))) && WellFormed(Nth(ns, NumberOf(token)), ok)
  {
    hide DecodeIndex, Misread;
    if IsIndex(token) {
      DecodeProperIndex(token, rest);
      if NumberOf(token) < Length(ns) { NthMeaning(ns, NumberOf(token), ok); }
    } else if !Misread(token) {
      DecodeImproperIndex(token, rest);
    }
  }

  /** A token selects the child the RFC step leads to. */
  lemma SelectIsStep(j: Json, token: string, rest: string, caseSensitive: bool, ok: string -> bool)
    requires Names(ok, caseSensitive)
    requires WellFormed(j, ok) && ok(token) && TokenEnds(rest)
    ensures Step(Meaning(j), token).Some? ==> SelectChild(j, token + rest, caseSensitive).Some?
    ensures ReadRight(Meaning(j), token) && SelectChild(j, token + rest, caseSensitive).Some? ==> Step(Meaning(j), token).Some?
    ensures Step(Meaning(j), token).Some? ==>
              var i := SelectChild(j, token + rest, caseSensitive).value;
              && Step(Meaning(j), token).value == Meaning(Child(j, i))
              && WellFormed(Child(j, i), ok)
              && (j.Array? ==> i == NumberOf(token))
              && (j.Object? ==> KeyAt(j.child, i) == token)
  {
    hide DecodeIndex, Misread, FindMember;
    match j
    case Array(ns) => SelectItem(ns, token, rest, ok);
    case Object(ns) =>
      FindMemberIsFindKey(ns, token, rest, caseSensitive, ok);
      var i := FindKey(ns, token);
      if i < Length(ns) {
        NthMeaning(ns, i, ok);
        FirstCounts(ns, token);
      }
    case _ =>
  }

  /** Exchanging the selected child is the RFC's exchange. */
  lemma SetIsSetStep(j: Json, token: string, i: nat, x: Json, ok: string -> bool)
    requires WellFormed(j, ok) && WellFormed(x, ok) && Step(Meaning(j), token).Some?
    requires i < Width(j)
    requires (j.Array? ==> i == NumberOf(token)) && (j.Object? ==> KeyAt(j.child, i) == token)
    ensures Meaning(SetChild(j, i, x)) == SetStep(Meaning(j), token, Meaning(x))
    ensures WellFormed(SetChild(j, i, x), ok)
  {
    SetMeaning(j.child, i, x, ok);
    if j.Object? { SetField(j.child, i, x); }
  }

  /** A pointer of plain tokens leads where the RFC's lookup leads. */
  lemma {:induction false} Resolves(doc: Json, path: seq<string>, caseSensitive: bool, ok: string -> bool)
    requires Names(ok, caseSensitive)
    requires WellFormed(doc, ok) && PlainPath(path, ok)
    requires Lookup(Meaning(doc), path).Some?
    ensures GetItem(doc, PathString(path), caseSensitive).Some?
    ensures var node := At(doc, GetItem(doc, PathString(path), caseSensitive).value);
            WellFormed(node, ok) && Meaning(node) == Lookup(Meaning(doc), path).value
    decreases path
  {
    if path != [] {
      var token, rest := path[0], PathString(path[1..]);
      PathStringEnds(path[1..]);
      SelectIsStep(doc, token, rest, caseSensitive, ok);
      SkipPlain(token, rest);
      GetThrough(doc, token, rest, caseSensitive);
      var i := SelectChild(doc, token + rest, caseSensitive).value;
      Resolves(Child(doc, i), path[1..], caseSensitive, ok);
      var loc := GetItem(Child(doc, i), rest, caseSensitive).value;
      assert ([i] + loc)[1..] == loc;
    }
  }

  lemma {:induction false} PutIsWith(doc: Json, path: seq<string>, caseSensitive: bool, x: Json, ok: string -> bool)
    requires Names(ok, caseSensitive)
    requires WellFormed(doc, ok) && PlainPath(path, ok) && WellFormed(x, ok)
    requires Lookup(Meaning(doc), path).Some? && GetItem(doc, PathString(path), caseSensitive).Some?
    ensures var loc := GetItem(doc, PathString(path), caseSensitive).value;
            && WellFormed(Put(doc, loc, x), ok)
            && Meaning(Put(doc, loc, x)) == With(Meaning(doc), path, Meaning(x))
    decreases path
  {
    if path != [] {
      var token, rest := path[0], PathString(path[1..]);
      PathStringEnds(path[1..]);
      SelectIsStep(doc, token, rest, caseSensitive, ok);
      SkipPlain(token, rest);
      GetThrough(doc, token, rest, caseSensitive);
      var i := SelectChild(doc, token + rest, caseSensitive).value;
      PutIsWith(Child(doc, i), path[1..], caseSensitive, x, ok);
      var loc := GetItem(Child(doc, i), rest, caseSensitive).value;
      assert ([i] + loc)[1..] == loc;
      SetIsSetStep(doc, token, i, Put(Child(doc, i), loc, x), ok);
    }
  }

  // ---------- what pointers of any plain tokens reach ----------

  /** A token as the code reads it: in front of an array, a misread one is the index that spells its number. */
  function ReadAs(v: Value, token: string): string {
    if ReadRight(v, token) then token else Decimal(NumberOf(token))
  }

  /** A path as the code reads it. */
  function AsRead(v: Value, path: seq<string>): seq<string> {
    if path == [] then []
    else
      var token := ReadAs(v, path[0]);
      [token] + (match Step(v, token) case None => path[1..] case Some(c) => AsRead(c, path[1..]))
  }

  /** No array on the way meets a token that is misread. */
  predicate WellRead(v: Value, path: seq<string>) {
    path == [] ||
    (ReadRight(v, path[0]) && match Step(v, path[0]) case None => true case Some(c) => WellRead(c, path[1..]))
  }

  lemma {:induction false} WellReadStays(v: Value, path: seq<string>)
    requires WellRead(v, path)
    ensures AsRead(v, path) == path
  {
    if path != [] {
      if Step(v, path[0]).Some? { WellReadStays(Step(v, path[0]).value, path[1..]); }
      assert path == [path[0]] + path[1..];
    }
  }

  /** What the RFC finds is well read. */
  lemma {:induction false} FoundIsWellRead(v: Value, path: seq<string>)
    requires Lookup(v, path).Some?
    ensures WellRead(v, path)
  {
    if path != [] { FoundIsWellRead(Step(v, path[0]).value, path[1..]); }
  }

  lemma ReadAsSelects(j: Json, token: string, rest: string, caseSensitive: bool, ok: string -> bool)
    requires Names(ok, caseSensitive)
    requires ok(token) && TokenEnds(rest)
    ensures var t := ReadAs(Meaning(j), token);
      ok(t) && ReadRight(Meaning(j), t) && SelectChild(j, t + rest, caseSensitive) == SelectChild(j, token + rest, caseSensitive)
  {
    if !ReadRight(Meaning(j), token) {
      MisreadAs(token, rest);
      NumberOfDecimal(NumberOf(token));
    }
  }

  /** Reading the tokens as the code does changes no lookup. */
  lemma {:induction false} AsReadReaches(doc: Json, path: seq<string>, caseSensitive: bool, ok: string -> bool)
    requires Names(ok, caseSensitive)
    requires WellFormed(doc, ok) && PlainPath(path, ok)
    ensures var p := AsRead(Meaning(doc), path);
      && PlainPath(p, ok) && WellRead(Meaning(doc), p) && |p| == |path|
      && GetItem(doc, PathString(p), caseSensitive) == GetItem(doc, PathString(path), caseSensitive)
    decreases path
  {
    if path != [] {
      var v, token, rest := Meaning(doc), path[0], PathString(path[1..]);
      var t, p := ReadAs(v, token), AsRead(v, path);
      ReadAsSelects(doc, token, rest, caseSensitive, ok);
      ThroughToken(doc, token, path[1..], caseSensitive, ok);
      assert p[0] == t;
      ThroughToken(doc, t, p[1..], caseSensitive, ok);
      PathStringEnds(p[1..]);
      PathStringEnds(path[1..]);
      SelectIsStep(doc, t, rest, caseSensitive, ok);
      SelectToken(doc, t, rest, PathString(p[1..]), caseSensitive, ok);
      if Step(v, t).Some? {
        AsReadReaches(Child(doc, SelectChild(doc, t + rest, caseSensitive).value), path[1..], caseSensitive, ok);
      }
    }
  }

  /** The first token of a pointer, and then the rest below the child it selects. */
  lemma ThroughToken(doc: Json, token: string, path: seq<string>, caseSensitive: bool, ok: string -> bool)
    requires Names(ok, caseSensitive)
    requires ok(token)
    ensures PathString([token] + path) == "/" + token + PathString(path)
    ensures GetItem(doc, PathString([token] + path), caseSensitive)
         == match SelectChild(doc, token + PathString(path), caseSensitive)
            case None => None
            case Some(i) => Below([i], GetItem(Child(doc, i), PathString(path), caseSensitive))
  {
    assert ([token] + path)[1..] == path;
    PathStringEnds(path);
    SkipPlain(token, PathString(path));
    GetThrough(doc, token, PathString(path), caseSensitive);
  }

  /** What a token selects does not depend on what follows it. */
  lemma SelectToken(j: Json, token: string, rest: string, rest': string, caseSensitive: bool, ok: string -> bool)
    requires Names(ok, caseSensitive)
    requires WellFormed(j, ok) && ok(token) && TokenEnds(rest) && TokenEnds(rest')
    ensures SelectChild(j, token + rest, caseSensitive) == SelectChild(j, token + rest', caseSensitive)
  {
    match j
    case Array(ns) =>
      DecodesTo(token, rest);
      DecodesTo(token, rest');
    case Object(ns) =>
      FindMemberIsFindKey(ns, token, rest, caseSensitive, ok);
      FindMemberIsFindKey(ns, token, rest', caseSensitive, ok);
    case _ =>
  }

  /** A pointer leads somewhere exactly when the RFC's lookup does, with the tokens as the code reads them. */
  lemma LeadsWhereRead(doc: Json, path: seq<string>, caseSensitive: bool, ok: string -> bool)
    requires Names(ok, caseSensitive)
    requires WellFormed(doc, ok) && PlainPath(path, ok)
    ensures var loc, v := GetItem(doc, PathString(path), caseSensitive), Lookup(Meaning(doc), AsRead(Meaning(doc), path));
      && (loc.Some? <==> v.Some?)
      && (loc.Some? ==> WellFormed(At(doc, loc.value), ok) && Meaning(At(doc, loc.value)) == v.value)
  {
    var p := AsRead(Meaning(doc), path);
    AsReadReaches(doc, path, caseSensitive, ok);
    if Lookup(Meaning(doc), p).Some? { Resolves(doc, p, caseSensitive, ok); } else { LeadsNowhere(doc, p, caseSensitive, ok); }
  }

  /** Without the target, the pointer leads nowhere either. */
  lemma {:induction false} LeadsNowhere(doc: Json, path: seq<string>, caseSensitive: bool, ok: string -> bool)
    requires Names(ok, caseSensitive)
    requires WellFormed(doc, ok) && PlainPath(path, ok) && WellRead(Meaning(doc), path)
    requires Lookup(Meaning(doc), path).None?
    ensures GetItem(doc, PathString(path), caseSensitive).None?
    decreases path
  {
    var token, rest := path[0], PathString(path[1..]);
    PathStringEnds(path[1..]);
    SelectIsStep(doc, token, rest, caseSensitive, ok);
    SkipPlain(token, rest);
    GetThrough(doc, token, rest, caseSensitive);
    if Step(Meaning(doc), token).Some? {
      LeadsNowhere(Child(doc, SelectChild(doc, token + rest, caseSensitive).value), path[1..], caseSensitive, ok);
    }
  }

  lemma {:induction false} SplitsAtLast(path: string, token: string)
    requires '/' !in token
    ensures LastSlash(path + "/" + token) == Some(|path|)
    decreases token
  {
    var p := path + "/" + token;
    if token != "" {
      assert token[|token| - 1] in token;
      assert p[..|p| - 1] == path + "/" + token[..|token| - 1];
      SplitsAtLast(path, token[..|token| - 1]);
    }
  }

  /** The split of a pointer into parent and child. */
  lemma SplitPath(path: seq<string>, ok: string -> bool)
    requires Names(ok, true)
    requires path != [] && PlainPath(path, ok)
    ensures var s, i := PathString(path), LastSlash(PathString(path));
            && i.Some? && s != ""
            && s[..i.value] == PathString(Front(path))
            && DecodePointer(s[i.value + 1..]) == Last(path)
    ensures PlainPath(Front(path), ok) && ok(Last(path))
  {
    assert path == Front(path) + [Last(path)];
    PathStringSnoc(Front(path), Last(path));
    SplitsAtLast(PathString(Front(path)), Last(path));
    PlainDecodes(Last(path), 0);
    assert (PathString(Front(path)) + "/" + Last(path))[|PathString(Front(path))| + 1..] == Last(path);
  }

  // ---------- apply_patch carries out the RFC's operations ----------

  lemma FindLower(ns: Nodes, name: string, caseSensitive: bool, ok: string -> bool)
    requires Names(ok, caseSensitive)
    requires KeysOk(ns, ok) && ok(name)
    ensures FindName(ns, name, caseSensitive) == FindKey(ns, name)
  {
    FindNameIsFindKey(ns, name, caseSensitive, ok);
  }

  lemma AddIntoIsAddTo(parent: Json, token: string, value: Json, caseSensitive: bool, ok: string -> bool)
    requires Names(ok, caseSensitive)
    requires WellFormed(parent, ok) && ok(token) && WellFormed(value, ok)
    requires AddTo(Meaning(parent), token, Meaning(value)).Some?
    ensures var r := AddInto(parent, token, value, caseSensitive);
            && r.status == 0 && WellFormed(r.doc, ok)
            && Meaning(r.doc) == AddTo(Meaning(parent), token, Meaning(value)).value
  {
    match parent
    case Array(ns) =>
      if token == "-" {
        AppendMeaning(ns, "", value, ok);
      } else {
        DecodeProperIndex(token, "");
        assert token + "" == token;
        InsertMeaning(ns, NumberOf(token), "", value, ok);
      }
    case Object(ns) =>
      ReplaceMemberMeans(ns, token, value, caseSensitive, ok);
    case _ =>
  }

  lemma ReplaceMemberMeans(ns: Nodes, name: string, value: Json, caseSensitive: bool, ok: string -> bool)
    requires Names(ok, caseSensitive)
    requires Distinct(ns) && KeysOk(ns, ok) && ValuesWellFormed(ns, ok)
    requires ok(name) && WellFormed(value, ok)
    ensures var r := ReplaceMember(ns, name, value, caseSensitive);
            && Distinct(r) && KeysOk(r, ok) && ValuesWellFormed(r, ok)
            && Fields(r) == Fields(ns)[name := Meaning(value)]
  {
    FindLower(ns, name, caseSensitive, ok);
    var k := FindKey(ns, name);
    if k < Length(ns) {
      RemoveMeaning(ns, k, ok);
      RemoveField(ns, k);
      AppendFresh(RemoveNth(ns, k), name, value, ok);
      DropThenUpdate(Fields(ns), name, Meaning(value));
    } else {
      AppendFresh(ns, name, value, ok);
    }
  }

  lemma DropThenUpdate(m: map<string, Value>, k: string, v: Value)
    ensures (m - {k})[k := v] == m[k := v]
  {
  }

  lemma AppendFresh(ns: Nodes, name: string, value: Json, ok: string -> bool)
    requires Distinct(ns) && KeysOk(ns, ok) && ValuesWellFormed(ns, ok)
    requires ok(name) && WellFormed(value, ok) && name !in Keys(ns)
    ensures var r := Append(ns, name, value);
            && Distinct(r) && KeysOk(r, ok) && ValuesWellFormed(r, ok)
            && Fields(r) == Fields(ns)[name := Meaning(value)]
  {
    AppendMeaning(ns, name, value, ok);
    AppendField(ns, name, value);
  }

  /** Where the path leads, the member to take out is met right. */
  predicate DetachRight(doc: Json, path: seq<string>, caseSensitive: bool) {
    path != [] ==>
      match GetItem(doc, PathString(Front(path)), caseSensitive)
      case None => true
      case Some(loc) => FoldsRight(At(doc, loc), Last(path))
  }

  /** Whatever the operation takes out is met right. */
  predicate TakesRight(doc: Json, op: Op, caseSensitive: bool) {
    match op
    case Remove(path) => DetachRight(doc, path, caseSensitive)
    case Replace(path, _) => DetachRight(doc, path, caseSensitive)
    case Move(from, _) => DetachRight(doc, from, caseSensitive)
    case _ => true
  }

  /** What an operation asks of the names besides what the lookup does. */
  ghost predicate Fair(doc: Json, op: Op, caseSensitive: bool, ok: string -> bool) {
    (op.Test? ==> Agreeing(ok)) && TakesRight(doc, op, caseSensitive)
  }

  /** Names that both comparisons put in the same order are fair to everything. */
  lemma PlainIsFair(doc: Json, op: Op, caseSensitive: bool, ok: string -> bool)
    requires Plain(ok) && WellFormed(doc, ok) && PlainPath(op.path, ok) && (op.Move? ==> PlainPath(op.from, ok))
    ensures Names(ok, caseSensitive) && Fair(doc, op, caseSensitive, ok)
  {
    hide DetachRight, Plain, PlainPath, WellFormed, Names, Agreeing;
    PlainNames(ok, caseSensitive);
    match op
    case Remove(path) => PlainDetachRight(doc, path, caseSensitive, ok);
    case Replace(path, _) => PlainDetachRight(doc, path, caseSensitive, ok);
    case Move(from, _) => PlainDetachRight(doc, from, caseSensitive, ok);
    case _ =>
  }

  lemma PlainDetachRight(doc: Json, path: seq<string>, caseSensitive: bool, ok: string -> bool)
    requires Plain(ok) && WellFormed(doc, ok) && PlainPath(path, ok)
    ensures DetachRight(doc, path, caseSensitive)
  {
    hide PathString, GetItem, Lookup, AsRead, Names;
    PlainNames(ok, caseSensitive);
    if path != [] {
      LeadsWhereRead(doc, Front(path), caseSensitive, ok);
      var loc := GetItem(doc, PathString(Front(path)), caseSensitive);
      if loc.Some? && At(doc, loc.value).Object? {
        FindNameIsFindKey(At(doc, loc.value).child, Last(path), false, ok);
      }
    }
  }

  lemma DetachIsRemove(parent: Json, token: string, ok: string -> bool)
    requires FoldsRight(parent, token)
    requires Names(ok, true)
    requires WellFormed(parent, ok) && ok(token)
    requires RemoveFrom(Meaning(parent), token).Some?
    ensures var d := DetachFrom(parent, token);
            && d.Some? && WellFormed(d.value.doc, ok) && WellFormed(d.value.item, ok)
            && Meaning(d.value.doc) == RemoveFrom(Meaning(parent), token).value
            && Step(Meaning(parent), token) == Some(Meaning(d.value.item))
  {
    match parent
    case Array(ns) =>
      DecodeProperIndex(token, "");
      assert token + "" == token;
      RemoveMeaning(ns, NumberOf(token), ok);
      NthMeaning(ns, NumberOf(token), ok);
    case Object(ns) =>
      var k := FindKey(ns, token);
      RemoveMeaning(ns, k, ok);
      RemoveField(ns, k);
      NthMeaning(ns, k, ok);
      FirstCounts(ns, token);
    case _ =>
  }

  lemma AddPathIsAddAt(doc: Json, path: seq<string>, value: Json, caseSensitive: bool, ok: string -> bool)
    requires Names(ok, caseSensitive)
    requires WellFormed(doc, ok) && path != [] && PlainPath(path, ok) && WellFormed(value, ok)
    requires AddAt(Meaning(doc), path, Meaning(value)).Some?
    ensures var r := AddPath(doc, PathString(path), value, caseSensitive);
            && r.status == 0 && WellFormed(r.doc, ok)
            && Meaning(r.doc) == AddAt(Meaning(doc), path, Meaning(value)).value
  {
    AddSplits(doc, path, value, caseSensitive, ok);
    AddBelow(doc, Front(path), Last(path), value, caseSensitive, ok);
  }

  lemma AddBelow(doc: Json, front: seq<string>, token: string, value: Json, caseSensitive: bool, ok: string -> bool)
    requires Names(ok, caseSensitive)
    requires WellFormed(doc, ok) && PlainPath(front, ok) && ok(token) && WellFormed(value, ok)
    requires Lookup(Meaning(doc), front).Some?
    requires AddTo(Lookup(Meaning(doc), front).value, token, Meaning(value)).Some?
    ensures var r := AddUnder(doc, PathString(front), token, value, caseSensitive);
            && r.status == 0 && WellFormed(r.doc, ok)
            && Meaning(r.doc)
            == With(Meaning(doc), front, AddTo(Lookup(Meaning(doc), front).value, token, Meaning(value)).value)
  {
    Resolves(doc, front, caseSensitive, ok);
    var parent := At(doc, GetItem(doc, PathString(front), caseSensitive).value);
    AddIntoIsAddTo(parent, token, value, caseSensitive, ok);
    PutIsWith(doc, front, caseSensitive, AddInto(parent, token, value, caseSensitive).doc, ok);
  }

  lemma DetachPathIsRemoveAt(doc: Json, path: seq<string>, caseSensitive: bool, ok: string -> bool)
    requires DetachRight(doc, path, caseSensitive)
    requires Names(ok, caseSensitive)
    requires WellFormed(doc, ok) && PlainPath(path, ok)
    requires RemoveAt(Meaning(doc), path).Some?
    ensures var d := DetachPath(doc, PathString(path), caseSensitive);
            && d.Some? && WellFormed(d.value.doc, ok) && WellFormed(d.value.item, ok)
            && Meaning(d.value.doc) == RemoveAt(Meaning(doc), path).value
            && Lookup(Meaning(doc), path) == Some(Meaning(d.value.item))
  {
    DetachSplits(doc, path, caseSensitive, ok);
    DetachBelow(doc, Front(path), Last(path), caseSensitive, ok);
    LookupLast(Meaning(doc), path);
  }

  lemma AddSplits(doc: Json, path: seq<string>, value: Json, caseSensitive: bool, ok: string -> bool)
    requires Names(ok, caseSensitive)
    requires path != [] && PlainPath(path, ok)
    ensures AddPath(doc, PathString(path), value, caseSensitive)
         == AddUnder(doc, PathString(Front(path)), Last(path), value, caseSensitive)
    ensures PlainPath(Front(path), ok) && ok(Last(path))
  {
    NamesEither(ok, caseSensitive);
    hide Names, PathString, DecodePointer;
    SplitPath(path, ok);
  }

  lemma DetachSplits(doc: Json, path: seq<string>, caseSensitive: bool, ok: string -> bool)
    requires Names(ok, caseSensitive)
    requires path != [] && PlainPath(path, ok)
    ensures DetachPath(doc, PathString(path), caseSensitive)
         == DetachUnder(doc, PathString(Front(path)), Last(path), caseSensitive)
    ensures PlainPath(Front(path), ok) && ok(Last(path))
  {
    NamesEither(ok, caseSensitive);
    hide Names, PathString, DecodePointer;
    SplitPath(path, ok);
  }

  lemma LookupLast(v: Value, path: seq<string>)
    requires path != [] && Lookup(v, Front(path)).Some?
    ensures Lookup(v, path) == Step(Lookup(v, Front(path)).value, Last(path))
  {
    LookupSnoc(v, Front(path), Last(path));
    assert path == Front(path) + [Last(path)];
  }

  lemma DetachBelow(doc: Json, front: seq<string>, token: string, caseSensitive: bool, ok: string -> bool)
    requires Names(ok, caseSensitive)
    requires WellFormed(doc, ok) && PlainPath(front, ok) && ok(token)
    requires Lookup(Meaning(doc), front).Some? && RemoveFrom(Lookup(Meaning(doc), front).value, token).Some?
    requires var loc := GetItem(doc, PathString(front), caseSensitive); loc.Some? ==> FoldsRight(At(doc, loc.value), token)
    ensures var d := DetachUnder(doc, PathString(front), token, caseSensitive);
            && d.Some? && WellFormed(d.value.item, ok) && WellFormed(d.value.doc, ok)
            && Step(Lookup(Meaning(doc), front).value, token) == Some(Meaning(d.value.item))
            && Meaning(d.value.doc) == With(Meaning(doc), front, RemoveFrom(Lookup(Meaning(doc), front).value, token).value)
  {
    hide GetItem, PathString, Lookup, With, PlainPath, WellFormed, Put, FoldsRight, DetachFrom, RemoveFrom, Names;
    NamesEither(ok, caseSensitive);
    Resolves(doc, front, caseSensitive, ok);
    var parent := At(doc, GetItem(doc, PathString(front), caseSensitive).value);
    DetachIsRemove(parent, token, ok);
    PutIsWith(doc, front, caseSensitive, DetachFrom(parent, token).value.doc, ok);
  }

  /** A removal followed by an addition at the same place exchanges the value there. */
  lemma RemoveThenAdd(v: Value, path: seq<string>, x: Value)
    requires path != [] && Lookup(v, path).Some?
    ensures RemoveAt(v, path).Some?
    ensures AddAt(RemoveAt(v, path).value, path, x) == Some(With(v, path, x))
  {
    var front, token := Front(path), Last(path);
    assert path == front + [token];
    LookupSnoc(v, front, token);
    var parent := Lookup(v, front).value;
    var less := RemoveFrom(parent, token).value;
    LookupWith(v, front, less);
    var more := AddTo(less, token, x);
    if parent.VArray? {
      assert token[0] != '-';
      assert more.value.items == parent.items[NumberOf(token) := x];
    } else {
      assert more.value.fields == parent.fields[token := x];
    }
    assert more == Some(SetStep(parent, token, x));
    WithSnoc(v, front, token, x);
    WithWith(v, front, less, more.value);
  }

  /** The request is for `op`, with plain tokens in its pointers. */
  ghost predicate Asks(r: Request, op: Op, ok: string -> bool) {
    && PlainPath(op.path, ok) && r.path == Some(Str(PathString(op.path)))
    && match op
       case Add(_, x) => r.opcode == ADD && HasValue(r, x, ok)
       case Remove(_) => r.opcode == REMOVE
       case Replace(_, x) => r.opcode == REPLACE && HasValue(r, x, ok)
       case Test(_, x) => r.opcode == TEST && HasValue(r, x, ok)
       case Move(from, _) => r.opcode == MOVE && PlainPath(from, ok) && r.from == Some(Str(PathString(from)))
       case Copy(from, _) => r.opcode == COPY && PlainPath(from, ok) && r.from == Some(Str(PathString(from)))
  }

  ghost predicate HasValue(r: Request, x: Value, ok: string -> bool) {
    r.value.Some? && WellFormed(r.value.value, ok) && Meaning(r.value.value) == x
  }

  /** `patch` is a JSON form of `op`. */
  ghost predicate Encodes(patch: Json, op: Op, caseSensitive: bool, ok: string -> bool) {
    Asks(ReadPatch(patch, caseSensitive), op, ok)
  }

  lemma PathStringEmpty(path: seq<string>)
    ensures PathString(path) == "" <==> path == []
  {
    if path != [] { assert PathString(path)[0] == '/'; }
  }

  /** What apply_patch must achieve for an operation the RFC defines. */
  ghost predicate Achieves(r: Outcome, v: Option<Value>, ok: string -> bool) {
    v.Some? && r.status == 0 && WellFormed(r.doc, ok) && Meaning(r.doc) == v.value
  }

  // The branch of apply_patch that each kind of request ends in.

  lemma CarryAdd(doc: Json, r: Request, s: string, caseSensitive: bool)
    requires r.path == Some(Str(s)) && r.opcode == ADD && s != "" && r.value.Some?
    ensures Carry(doc, r, caseSensitive) == AddPath(doc, s, r.value.value, caseSensitive)
  {
  }

  lemma CarryRemove(doc: Json, r: Request, s: string, caseSensitive: bool)
    requires r.path == Some(Str(s)) && r.opcode == REMOVE && s != "" && DetachPath(doc, s, caseSensitive).Some?
    ensures Carry(doc, r, caseSensitive) == Outcome(0, DetachPath(doc, s, caseSensitive).value.doc)
  {
  }

  lemma CarryReplace(doc: Json, r: Request, s: string, caseSensitive: bool)
    requires r.path == Some(Str(s)) && r.opcode == REPLACE && s != "" && DetachPath(doc, s, caseSensitive).Some?
    requires r.value.Some?
    ensures Carry(doc, r, caseSensitive)
         == AddPath(DetachPath(doc, s, caseSensitive).value.doc, s, r.value.value, caseSensitive)
  {
  }

  lemma CarryCopy(doc: Json, r: Request, s: string, f: string, caseSensitive: bool)
    requires r.path == Some(Str(s)) && r.from == Some(Str(f)) && r.opcode == COPY
    requires GetItem(doc, f, caseSensitive).Some?
    ensures Carry(doc, r, caseSensitive)
         == AddPath(doc, s, At(doc, GetItem(doc, f, caseSensitive).value), caseSensitive)
  {
  }

  lemma CarryMove(doc: Json, r: Request, s: string, f: string, caseSensitive: bool)
    requires r.path == Some(Str(s)) && r.from == Some(Str(f)) && r.opcode == MOVE
    requires DetachPath(doc, f, caseSensitive).Some?
    ensures var d := DetachPath(doc, f, caseSensitive).value;
            Carry(doc, r, caseSensitive) == AddPath(d.doc, s, d.item, caseSensitive)
  {
  }

  lemma TestPasses(doc: Json, path: seq<string>, value: Json, caseSensitive: bool, ok: string -> bool)
    requires Agreeing(ok)
    requires Names(ok, caseSensitive)
    requires WellFormed(doc, ok) && PlainPath(path, ok) && WellFormed(value, ok)
    requires Lookup(Meaning(doc), path).Some?
    ensures var r := ApplyTest(doc, PathString(path), Some(value), caseSensitive);
            && (r.status == 0 <==> Lookup(Meaning(doc), path).value == Meaning(value))
            && WellFormed(r.doc, ok) && Meaning(r.doc) == Meaning(doc)
  {
    Resolves(doc, path, caseSensitive, ok);
    var node := At(doc, GetItem(doc, PathString(path), caseSensitive).value);
    CompareJsonMeans(node, value, caseSensitive, ok);
    PutIsWith(doc, path, caseSensitive, CompareJson(node, value, caseSensitive).a, ok);
    WithSame(Meaning(doc), path);
  }

  // ---------- adding and removing, with the tokens as the code reads them ----------

  lemma {:induction false} AsReadSnoc(v: Value, front: seq<string>, token: string)
    ensures AsRead(v, front + [token])
         == AsRead(v, front) + [match Lookup(v, AsRead(v, front)) case None => token case Some(c) => ReadAs(c, token)]
  {
    var path := front + [token];
    if front == [] {
      assert path == [token] && [token][1..] == [];
      assert forall c :: AsRead(c, []) == [];
      assert Lookup(v, []) == Some(v);
    } else {
      var t := ReadAs(v, front[0]);
      assert path[0] == front[0] && path[1..] == front[1..] + [token];
      if Step(v, t).Some? {
        var c := Step(v, t).value;
        AsReadSnoc(c, front[1..], token);
        assert AsRead(v, front)[0] == t && AsRead(v, front)[1..] == AsRead(c, front[1..]);
      } else {
        assert AsRead(v, front)[0] == t;
      }
    }
  }

  /** The last token of a path, as the code reads it. */
  lemma AsReadSplit(v: Value, path: seq<string>)
    requires path != []
    ensures var p := AsRead(v, path);
      && p != [] && Front(p) == AsRead(v, Front(path))
      && Last(p) == match Lookup(v, Front(p)) case None => Last(path) case Some(c) => ReadAs(c, Last(path))
  {
    assert path == Front(path) + [Last(path)];
    AsReadSnoc(v, Front(path), Last(path));
  }

  lemma {:induction false} WellReadSnoc(v: Value, front: seq<string>, token: string)
    requires WellRead(v, front + [token])
    ensures WellRead(v, front) && (Lookup(v, front).Some? ==> ReadRight(Lookup(v, front).value, token))
  {
    if front == [] {
      assert ([] + [token])[0] == token;
    } else {
      assert (front + [token])[0] == front[0] && (front + [token])[1..] == front[1..] + [token];
      if Step(v, front[0]).Some? { WellReadSnoc(Step(v, front[0]).value, front[1..], token); }
    }
  }

  lemma WellReadSplit(v: Value, path: seq<string>)
    requires path != [] && WellRead(v, path)
    ensures WellRead(v, Front(path)) && (Lookup(v, Front(path)).Some? ==> ReadRight(Lookup(v, Front(path)).value, Last(path)))
  {
    assert path == Front(path) + [Last(path)];
    WellReadSnoc(v, Front(path), Last(path));
  }

  lemma AddIntoAsRead(parent: Json, token: string, value: Json, caseSensitive: bool, ok: string -> bool)
    requires Names(ok, caseSensitive)
    requires ok(token)
    ensures AddInto(parent, token, value, caseSensitive) == AddInto(parent, ReadAs(Meaning(parent), token), value, caseSensitive)
  {
    if !ReadRight(Meaning(parent), token) {
      MisreadAs(token, "");
      assert token + "" == token && Decimal(NumberOf(token)) + "" == Decimal(NumberOf(token));
    }
  }

  lemma DetachFromAsRead(parent: Json, token: string, ok: string -> bool)
    requires Names(ok, true)
    requires ok(token)
    ensures DetachFrom(parent, token) == DetachFrom(parent, ReadAs(Meaning(parent), token))
  {
    if !ReadRight(Meaning(parent), token) {
      MisreadAs(token, "");
      assert token + "" == token && Decimal(NumberOf(token)) + "" == Decimal(NumberOf(token));
    }
  }

  lemma AddPathAsRead(doc: Json, path: seq<string>, value: Json, caseSensitive: bool, ok: string -> bool)
    requires Names(ok, caseSensitive)
    requires WellFormed(doc, ok) && path != [] && PlainPath(path, ok)
    ensures AddPath(doc, PathString(path), value, caseSensitive)
         == AddPath(doc, PathString(AsRead(Meaning(doc), path)), value, caseSensitive)
  {
    hide PathString, GetItem, Lookup, AddInto, Put, DecodePointer, LastSlash, WellFormed, PlainPath, AsRead, WellRead;
    var p := AsRead(Meaning(doc), path);
    AsReadReaches(doc, path, caseSensitive, ok);
    AsReadSplit(Meaning(doc), path);
    AddSplits(doc, path, value, caseSensitive, ok);
    AddSplits(doc, p, value, caseSensitive, ok);
    LeadsWhereRead(doc, Front(path), caseSensitive, ok);
    AsReadReaches(doc, Front(path), caseSensitive, ok);
    var loc := GetItem(doc, PathString(Front(path)), caseSensitive);
    if loc.Some? { AddIntoAsRead(At(doc, loc.value), Last(path), value, caseSensitive, ok); }
  }

  lemma DetachPathAsRead(doc: Json, path: seq<string>, caseSensitive: bool, ok: string -> bool)
    requires Names(ok, caseSensitive)
    requires WellFormed(doc, ok) && path != [] && PlainPath(path, ok)
    ensures DetachPath(doc, PathString(path), caseSensitive)
         == DetachPath(doc, PathString(AsRead(Meaning(doc), path)), caseSensitive)
  {
    hide PathString, GetItem, Lookup, DetachFrom, Put, DecodePointer, LastSlash, WellFormed, PlainPath, AsRead, WellRead;
    var p := AsRead(Meaning(doc), path);
    AsReadReaches(doc, path, caseSensitive, ok);
    AsReadSplit(Meaning(doc), path);
    DetachSplits(doc, path, caseSensitive, ok);
    DetachSplits(doc, p, caseSensitive, ok);
    LeadsWhereRead(doc, Front(path), caseSensitive, ok);
    AsReadReaches(doc, Front(path), caseSensitive, ok);
    var loc := GetItem(doc, PathString(Front(path)), caseSensitive);
    if loc.Some? { DetachFromAsRead(At(doc, loc.value), Last(path), ok); }
  }

  lemma AddIntoRefuses(parent: Json, token: string, value: Json, caseSensitive: bool, ok: string -> bool)
    requires Names(ok, caseSensitive)
    requires WellFormed(parent, ok) && ok(token) && ReadRight(Meaning(parent), token)
    requires AddTo(Meaning(parent), token, Meaning(value)).None?
    ensures AddInto(parent, token, value, caseSensitive).status != 0
  {
    if parent.Array? {
      assert token + "" == token;
      DecodesTo(token, "");
    }
  }

  lemma DetachFromRefuses(parent: Json, token: string, ok: string -> bool)
    requires FoldsRight(parent, token)
    requires Names(ok, true)
    requires WellFormed(parent, ok) && ok(token) && ReadRight(Meaning(parent), token)
    requires Step(Meaning(parent), token).None?
    ensures DetachFrom(parent, token).None?
  {
    if parent.Array? {
      assert token + "" == token;
      DecodesTo(token, "");
    }
  }

  lemma AddPathRefuses(doc: Json, path: seq<string>, value: Json, caseSensitive: bool, ok: string -> bool)
    requires Names(ok, caseSensitive)
    requires WellFormed(doc, ok) && path != [] && PlainPath(path, ok) && WellRead(Meaning(doc), path)
    requires AddAt(Meaning(doc), path, Meaning(value)).None?
    ensures AddPath(doc, PathString(path), value, caseSensitive).status != 0
  {
    hide PathString, GetItem, Lookup, AddTo, AddInto, Put, DecodePointer, LastSlash;
    AddSplits(doc, path, value, caseSensitive, ok);
    WellReadSplit(Meaning(doc), path);
    var front := Front(path);
    if Lookup(Meaning(doc), front).None? {
      LeadsNowhere(doc, front, caseSensitive, ok);
    } else {
      Resolves(doc, front, caseSensitive, ok);
      AddIntoRefuses(At(doc, GetItem(doc, PathString(front), caseSensitive).value), Last(path), value, caseSensitive, ok);
    }
  }

  lemma DetachPathRefuses(doc: Json, path: seq<string>, caseSensitive: bool, ok: string -> bool)
    requires DetachRight(doc, path, caseSensitive)
    requires Names(ok, caseSensitive)
    requires WellFormed(doc, ok) && PlainPath(path, ok) && WellRead(Meaning(doc), path)
    requires RemoveAt(Meaning(doc), path).None?
    ensures DetachPath(doc, PathString(path), caseSensitive).None?
  {
    if path != [] {
      hide PathString, GetItem, Lookup, DetachFrom, Put, DecodePointer, LastSlash, FoldsRight, Names, PlainPath;
      DetachSplits(doc, path, caseSensitive, ok);
      WellReadSplit(Meaning(doc), path);
      var front := Front(path);
      if Lookup(Meaning(doc), front).None? {
        LeadsNowhere(doc, front, caseSensitive, ok);
      } else {
        Resolves(doc, front, caseSensitive, ok);
        DetachFromRefuses(At(doc, GetItem(doc, PathString(front), caseSensitive).value), Last(path), ok);
      }
    } else {
      assert PathString([]) == "";
    }
  }

  /** A place that does not exist can be neither replaced nor removed. */
  lemma NoPlace(v: Value, path: seq<string>)
    requires path != []
    ensures Lookup(v, path).None? <==> RemoveAt(v, path).None?
  {
    if Lookup(v, Front(path)).Some? {
      LookupLast(v, path);
    } else {
      LookupNeedsFront(v, path);
    }
  }

  lemma {:induction false} LookupNeedsFront(v: Value, path: seq<string>)
    requires path != [] && Lookup(v, Front(path)).None?
    ensures Lookup(v, path).None?
    decreases path
  {
    if |path| > 1 && Step(v, path[0]).Some? {
      assert Front(path)[0] == path[0] && Front(path)[1..] == Front(path[1..]);
      LookupNeedsFront(Step(v, path[0]).value, path[1..]);
    }
  }

  /** The outcome is the value, or both are failures. */
  ghost predicate Yields(r: Outcome, v: Option<Value>, ok: string -> bool) {
    (r.status == 0 <==> v.Some?) && (v.Some? ==> WellFormed(r.doc, ok) && Meaning(r.doc) == v.value)
  }

  /** Adding does what the RFC does with the path as the code reads it. */
  lemma AddPathDoes(doc: Json, path: seq<string>, value: Json, caseSensitive: bool, ok: string -> bool)
    requires Names(ok, caseSensitive)
    requires WellFormed(doc, ok) && path != [] && PlainPath(path, ok) && WellFormed(value, ok)
    ensures Yields(AddPath(doc, PathString(path), value, caseSensitive),
                   AddAt(Meaning(doc), AsRead(Meaning(doc), path), Meaning(value)), ok)
  {
    hide PathString, AddPath, WellFormed, PlainPath, AsRead, WellRead, Meaning, AddAt;
    var p := AsRead(Meaning(doc), path);
    AsReadReaches(doc, path, caseSensitive, ok);
    AddPathAsRead(doc, path, value, caseSensitive, ok);
    if AddAt(Meaning(doc), p, Meaning(value)).Some? {
      AddPathIsAddAt(doc, p, value, caseSensitive, ok);
    } else {
      AddPathRefuses(doc, p, value, caseSensitive, ok);
    }
  }

  lemma DetachRightAsRead(doc: Json, path: seq<string>, caseSensitive: bool, ok: string -> bool)
    requires Names(ok, caseSensitive)
    requires WellFormed(doc, ok) && path != [] && PlainPath(path, ok)
    ensures DetachRight(doc, path, caseSensitive) ==> DetachRight(doc, AsRead(Meaning(doc), path), caseSensitive)
  {
    hide PathString, GetItem, Lookup, WellFormed, PlainPath, AsRead, WellRead, Names;
    AsReadSplit(Meaning(doc), path);
    FrontIsPlain(path, ok);
    LeadsWhereRead(doc, Front(path), caseSensitive, ok);
    AsReadReaches(doc, Front(path), caseSensitive, ok);
  }

  lemma FrontIsPlain(path: seq<string>, ok: string -> bool)
    requires path != [] && PlainPath(path, ok)
    ensures PlainPath(Front(path), ok) && ok(Last(path))
  {
  }

  lemma DetachPathDoes(doc: Json, path: seq<string>, caseSensitive: bool, ok: string -> bool)
    requires DetachRight(doc, path, caseSensitive)
    requires Names(ok, caseSensitive)
    requires WellFormed(doc, ok) && PlainPath(path, ok)
    ensures var d, p := DetachPath(doc, PathString(path), caseSensitive), AsRead(Meaning(doc), path);
      && (d.Some? <==> RemoveAt(Meaning(doc), p).Some?)
      && (d.Some? ==> WellFormed(d.value.doc, ok) && WellFormed(d.value.item, ok)
                      && Meaning(d.value.doc) == RemoveAt(Meaning(doc), p).value
                      && Lookup(Meaning(doc), p) == Some(Meaning(d.value.item)))
  {
    if path == [] {
      assert PathString([]) == "";
    } else {
      hide PathString, DetachPath, WellFormed, PlainPath, AsRead, WellRead, Meaning, RemoveAt, Lookup;
      var p := AsRead(Meaning(doc), path);
      AsReadReaches(doc, path, caseSensitive, ok);
      DetachPathAsRead(doc, path, caseSensitive, ok);
      DetachRightAsRead(doc, path, caseSensitive, ok);
      if RemoveAt(Meaning(doc), p).Some? {
        DetachPathIsRemoveAt(doc, p, caseSensitive, ok);
      } else {
        DetachPathRefuses(doc, p, caseSensitive, ok);
      }
    }
  }

  lemma RemoveAtDown(v: Value, p: seq<string>)
    requires |p| > 1 && RemoveAt(v, p).Some?
    ensures Step(v, p[0]).Some? && RemoveAt(Step(v, p[0]).value, p[1..]).Some?
    ensures RemoveAt(v, p).value == SetStep(v, p[0], RemoveAt(Step(v, p[0]).value, p[1..]).value)
  {
    assert Front(p)[0] == p[0] && Front(p)[1..] == Front(p[1..]) && Last(p) == Last(p[1..]);
  }

  /** After a removal the code still reads the path in the same way. */
  lemma {:induction false} ReadAgain(v: Value, path: seq<string>)
    requires path != [] && RemoveAt(v, AsRead(v, path)).Some?
    ensures AsRead(RemoveAt(v, AsRead(v, path)).value, path) == AsRead(v, path)
    decreases |path|
  {
    var p, t := AsRead(v, path), ReadAs(v, path[0]);
    assert p[0] == t;
    if |path| == 1 {
      assert p == [t] && Front(p) == [] && Last(p) == t;
      ReadOne(v, RemoveAt(v, p).value, path);
    } else {
      AsReadLength(v, path);
      RemoveAtDown(v, p);
      var c := Step(v, t).value;
      assert p[1..] == AsRead(c, path[1..]);
      ReadAgain(c, path[1..]);
      var c' := RemoveAt(c, p[1..]).value;
      SetThenStep(v, t, c', c');
      assert ReadAs(SetStep(v, t, c'), path[0]) == t;
    }
  }

  lemma {:induction false} AsReadLength(v: Value, path: seq<string>)
    ensures |AsRead(v, path)| == |path|
  {
    if path != [] {
      var t := ReadAs(v, path[0]);
      if Step(v, t).Some? { AsReadLength(Step(v, t).value, path[1..]); }
    }
  }

  lemma ReadOne(v: Value, v': Value, path: seq<string>)
    requires |path| == 1 && (v.VArray? <==> v'.VArray?)
    ensures AsRead(v', path) == AsRead(v, path) == [ReadAs(v, path[0])]
  {
    assert path[1..] == [];
    assert forall c :: AsRead(c, []) == [];
  }

  /** Replacing: once the old value is gone, adding the new one in its place cannot fail. */
  lemma ReplaceDoes(doc: Json, path: seq<string>, value: Json, caseSensitive: bool, ok: string -> bool)
    requires DetachRight(doc, path, caseSensitive)
    requires Names(ok, caseSensitive)
    requires WellFormed(doc, ok) && path != [] && PlainPath(path, ok) && WellFormed(value, ok)
    ensures var d, v, p := DetachPath(doc, PathString(path), caseSensitive), Meaning(doc), AsRead(Meaning(doc), path);
      && (d.Some? <==> Lookup(v, p).Some?)
      && (d.Some? ==> Yields(AddPath(d.value.doc, PathString(path), value, caseSensitive), Some(With(v, p, Meaning(value))), ok))
  {
    hide PathString, DetachPath, WellFormed, PlainPath, AsRead, WellRead, Meaning, RemoveAt, Lookup, With, AddAt, AddPath;
    var v, p := Meaning(doc), AsRead(Meaning(doc), path);
    AsReadLength(v, path);
    NoPlace(v, p);
    DetachPathDoes(doc, path, caseSensitive, ok);
    if Lookup(v, p).Some? {
      ReadAgain(v, path);
      RemoveThenAdd(v, p, Meaning(value));
      AddPathDoes(DetachPath(doc, PathString(path), caseSensitive).value.doc, path, value, caseSensitive, ok);
    }
  }

  lemma TestDoes(doc: Json, path: seq<string>, value: Json, caseSensitive: bool, ok: string -> bool)
    requires Agreeing(ok)
    requires Names(ok, caseSensitive)
    requires WellFormed(doc, ok) && PlainPath(path, ok) && WellFormed(value, ok)
    ensures var r := ApplyTest(doc, PathString(path), Some(value), caseSensitive);
      && (r.status == 0 <==> Lookup(Meaning(doc), AsRead(Meaning(doc), path)) == Some(Meaning(value)))
      && Meaning(r.doc) == Meaning(doc) && WellFormed(r.doc, ok)
  {
    hide PathString, WellFormed, PlainPath, AsRead, WellRead, Meaning, Lookup, GetItem;
    var p := AsRead(Meaning(doc), path);
    AsReadReaches(doc, path, caseSensitive, ok);
    LeadsWhereRead(doc, path, caseSensitive, ok);
    if Lookup(Meaning(doc), p).Some? { TestPasses(doc, p, value, caseSensitive, ok); }
  }

  // ---------- apply_patch against the RFC ----------

  /**
   * What apply_patch makes of an operation: the RFC's result for the paths as the code reads them, but the whole
   * document can be removed, nothing can be moved or copied onto it, and a value can be moved below itself.
   */
  function DoneBy(v: Value, op: Op): Option<Value> {
    match op
    case Add(path, x) => AddAt(v, AsRead(v, path), x)
    case Remove(path) => if path == [] then Some(VInvalid) else RemoveAt(v, AsRead(v, path))
    case Replace(path, x) => if Lookup(v, AsRead(v, path)).Some? then Some(With(v, AsRead(v, path), x)) else None
    case Test(path, x) => if Lookup(v, AsRead(v, path)) == Some(x) then Some(v) else None
    case Copy(from, path) =>
      (match Lookup(v, AsRead(v, from))
       case None => None
       case Some(x) => if path == [] then None else AddAt(v, AsRead(v, path), x))
    case Move(from, path) => if path == [] then None else Moved(v, AsRead(v, from), path)
  }

  /** The value at `from` is taken out and added at `path`, which is read afterwards. */
  function Moved(v: Value, from: seq<string>, path: seq<string>): Option<Value> {
    match (Lookup(v, from), RemoveAt(v, from))
    case (Some(x), Some(v')) => AddAt(v', AsRead(v', path), x)
    case _ => None
  }

  /** The value of apply_patch, for every operation whose pointers consist of plain tokens. */
  lemma ApplyDoes(doc: Json, patch: Json, op: Op, caseSensitive: bool, ok: string -> bool)
    requires Fair(doc, op, caseSensitive, ok)
    requires Names(ok, caseSensitive)
    requires WellFormed(doc, ok) && Encodes(patch, op, caseSensitive, ok)
    ensures if op == Remove([]) then ApplyPatch(doc, patch, caseSensitive) == Outcome(0, Invalid)
            else Yields(ApplyPatch(doc, patch, caseSensitive), DoneBy(Meaning(doc), op), ok)
  {
    hide WellFormed, Meaning, AddPath, DetachPath, ApplyTest, GetItem, PathString, PlainPath, AsRead, Carry, AddAt, RemoveAt, Lookup;
    var r := ReadPatch(patch, caseSensitive);
    match op
    case Add(_, _) => AddDoes(doc, r, op, caseSensitive, ok);
    case Remove(_) => RemoveDoes(doc, r, op, caseSensitive, ok);
    case Replace(_, _) => ReplaceCarried(doc, r, op, caseSensitive, ok);
    case Test(path, _) =>
      CarryTest(doc, r, PathString(path), caseSensitive);
      TestDoes(doc, path, r.value.value, caseSensitive, ok);
    case Copy(_, _) => CopyDoes(doc, r, op, caseSensitive, ok);
    case Move(_, _) => MoveDoes(doc, r, op, caseSensitive, ok);
  }

  lemma CarryTest(doc: Json, r: Request, s: string, caseSensitive: bool)
    requires r.path == Some(Str(s)) && r.opcode == TEST
    ensures Carry(doc, r, caseSensitive) == ApplyTest(doc, s, r.value, caseSensitive)
  {
  }

  /** The pointer to the whole document. */
  lemma CarryRoot(doc: Json, r: Request, caseSensitive: bool)
    requires r.path == Some(Str(""))
    ensures r.opcode == REMOVE ==> Carry(doc, r, caseSensitive) == Outcome(0, Invalid)
    ensures r.opcode in {ADD, REPLACE} && r.value.Some? ==> Carry(doc, r, caseSensitive) == Outcome(0, r.value.value)
  {
  }

  lemma AddDoes(doc: Json, r: Request, op: Op, caseSensitive: bool, ok: string -> bool)
    requires Names(ok, caseSensitive)
    requires op.Add? && WellFormed(doc, ok) && Asks(r, op, ok)
    ensures Yields(Carry(doc, r, caseSensitive), DoneBy(Meaning(doc), op), ok)
  {
    hide WellFormed, Meaning, AddPath, PathString, PlainPath, Carry;
    PathStringEmpty(op.path);
    if op.path == [] {
      CarryRoot(doc, r, caseSensitive);
    } else {
      AddPathDoes(doc, op.path, r.value.value, caseSensitive, ok);
      CarryAdd(doc, r, PathString(op.path), caseSensitive);
    }
  }

  lemma RemoveDoes(doc: Json, r: Request, op: Op, caseSensitive: bool, ok: string -> bool)
    requires TakesRight(doc, op, caseSensitive)
    requires Names(ok, caseSensitive)
    requires op.Remove? && WellFormed(doc, ok) && Asks(r, op, ok)
    ensures if op.path == [] then Carry(doc, r, caseSensitive) == Outcome(0, Invalid)
            else Yields(Carry(doc, r, caseSensitive), DoneBy(Meaning(doc), op), ok)
  {
    hide WellFormed, DetachPath, PathString, PlainPath, Carry, AsRead, RemoveAt;
    var s := PathString(op.path);
    PathStringEmpty(op.path);
    if op.path == [] {
      CarryRoot(doc, r, caseSensitive);
    } else {
      DetachPathDoes(doc, op.path, caseSensitive, ok);
      if DetachPath(doc, s, caseSensitive).Some? {
        CarryRemove(doc, r, s, caseSensitive);
      } else {
        CarryNoPlace(doc, r, s, caseSensitive);
      }
    }
  }

  lemma ReplaceCarried(doc: Json, r: Request, op: Op, caseSensitive: bool, ok: string -> bool)
    requires TakesRight(doc, op, caseSensitive)
    requires Names(ok, caseSensitive)
    requires op.Replace? && WellFormed(doc, ok) && Asks(r, op, ok)
    ensures Yields(Carry(doc, r, caseSensitive), DoneBy(Meaning(doc), op), ok)
  {
    var s := PathString(op.path);
    PathStringEmpty(op.path);
    if op.path == [] {
      CarryRoot(doc, r, caseSensitive);
    } else {
      hide WellFormed, Meaning, DetachPath, AddPath, PathString, PlainPath, Carry, AsRead, Lookup, With;
      ReplaceDoes(doc, op.path, r.value.value, caseSensitive, ok);
      if DetachPath(doc, s, caseSensitive).Some? {
        CarryReplace(doc, r, s, caseSensitive);
      } else {
        CarryNoPlace(doc, r, s, caseSensitive);
      }
    }
  }

  lemma CarryNoPlace(doc: Json, r: Request, s: string, caseSensitive: bool)
    requires r.path == Some(Str(s)) && r.opcode in {REMOVE, REPLACE} && s != "" && DetachPath(doc, s, caseSensitive).None?
    ensures Carry(doc, r, caseSensitive) == Outcome(13, doc)
  {
  }

  lemma CarryNoSource(doc: Json, r: Request, s: string, f: string, caseSensitive: bool)
    requires r.path == Some(Str(s)) && r.from == Some(Str(f))
    requires (r.opcode == COPY && GetItem(doc, f, caseSensitive).None?) || (r.opcode == MOVE && DetachPath(doc, f, caseSensitive).None?)
    ensures Carry(doc, r, caseSensitive) == Outcome(5, doc)
  {
  }

  lemma AddToRoot(doc: Json, value: Json, caseSensitive: bool)
    ensures AddPath(doc, PathString([]), value, caseSensitive) == Outcome(9, doc)
  {
  }

  lemma CopyDoes(doc: Json, r: Request, op: Op, caseSensitive: bool, ok: string -> bool)
    requires Names(ok, caseSensitive)
    requires op.Copy? && WellFormed(doc, ok) && Asks(r, op, ok)
    ensures Yields(Carry(doc, r, caseSensitive), DoneBy(Meaning(doc), op), ok)
    ensures op.path == [] ==> Carry(doc, r, caseSensitive).status in {5, 9}
  {
    hide WellFormed, Meaning, AddPath, GetItem, PathString, PlainPath, Carry, AsRead, Lookup, AddAt;
    var s, f := PathString(op.path), PathString(op.from);
    LeadsWhereRead(doc, op.from, caseSensitive, ok);
    if GetItem(doc, f, caseSensitive).Some? {
      var x := At(doc, GetItem(doc, f, caseSensitive).value);
      CarryCopy(doc, r, s, f, caseSensitive);
      if op.path == [] { AddToRoot(doc, x, caseSensitive); } else { AddPathDoes(doc, op.path, x, caseSensitive, ok); }
    } else {
      CarryNoSource(doc, r, s, f, caseSensitive);
    }
  }

  lemma MoveDoes(doc: Json, r: Request, op: Op, caseSensitive: bool, ok: string -> bool)
    requires TakesRight(doc, op, caseSensitive)
    requires Names(ok, caseSensitive)
    requires op.Move? && WellFormed(doc, ok) && Asks(r, op, ok)
    ensures Yields(Carry(doc, r, caseSensitive), DoneBy(Meaning(doc), op), ok)
    ensures op.path == [] ==> var c, v' := Carry(doc, r, caseSensitive), RemoveAt(Meaning(doc), AsRead(Meaning(doc), op.from));
      if v'.Some? then c.status == 9 && Meaning(c.doc) == v'.value else c == Outcome(5, doc)
  {
    hide WellFormed, Meaning, AddPath, DetachPath, PathString, PlainPath, Carry, AsRead, Lookup, AddAt, RemoveAt;
    var s, f := PathString(op.path), PathString(op.from);
    DetachPathDoes(doc, op.from, caseSensitive, ok);
    if DetachPath(doc, f, caseSensitive).Some? {
      var d := DetachPath(doc, f, caseSensitive).value;
      CarryMove(doc, r, s, f, caseSensitive);
      if op.path == [] { AddToRoot(d.doc, d.item, caseSensitive); } else { AddPathDoes(d.doc, op.path, d.item, caseSensitive, ok); }
    } else {
      CarryNoSource(doc, r, s, f, caseSensitive);
    }
  }

  /** The operation stays clear of the places where code and RFC part; a caller can tell before the call. */
  ghost predicate Follows(v: Value, op: Op) {
    match op
    case Remove(path) => path != [] && WellRead(v, path)
    case Copy(from, path) => path != [] && WellRead(v, from) && WellRead(v, path)
    case Move(from, path) =>
      && path != [] && !(from < path) && WellRead(v, from)
      && (RemoveAt(v, from).Some? ==> WellRead(RemoveAt(v, from).value, path))
    case _ => WellRead(v, op.path)
  }

  lemma FollowsRun(v: Value, op: Op)
    requires Follows(v, op)
    ensures DoneBy(v, op) == Run(v, op)
  {
    hide AddAt, RemoveAt, Lookup, With, WellRead, AsRead;
    match op
    case Copy(from, path) =>
      WellReadStays(v, from);
      WellReadStays(v, path);
    case Move(from, path) =>
      WellReadStays(v, from);
      if RemoveAt(v, from).Some? { WellReadStays(RemoveAt(v, from).value, path); }
    case _ =>
      WellReadStays(v, op.path);
  }

  lemma AddedIsWellRead(v: Value, path: seq<string>, x: Value)
    requires AddAt(v, path, x).Some?
    ensures WellRead(v, path)
  {
    if path != [] {
      FoundIsWellRead(v, Front(path));
      assert path == Front(path) + [Last(path)];
      WellReadSoFar(v, Front(path), Last(path));
    }
  }

  lemma {:induction false} WellReadSoFar(v: Value, front: seq<string>, token: string)
    requires WellRead(v, front) && Lookup(v, front).Some? && ReadRight(Lookup(v, front).value, token)
    ensures WellRead(v, front + [token])
  {
    if front == [] {
      assert [] + [token] == [token] && [token][1..] == [];
    } else {
      assert (front + [token])[0] == front[0] && (front + [token])[1..] == front[1..] + [token];
      WellReadSoFar(Step(v, front[0]).value, front[1..], token);
    }
  }

  /** What the RFC allows stays clear of them, but for the root as a target. */
  lemma AllowedFollows(v: Value, op: Op)
    requires Run(v, op).Some? && (op.Move? || op.Copy? ==> op.path != [])
    ensures Follows(v, op)
  {
    match op
    case Add(path, x) => AddedIsWellRead(v, path, x);
    case Remove(path) =>
      NoPlace(v, path);
      FoundIsWellRead(v, path);
    case Replace(path, _) => FoundIsWellRead(v, path);
    case Test(path, _) => FoundIsWellRead(v, path);
    case Copy(from, path) =>
      FoundIsWellRead(v, from);
      AddedIsWellRead(v, path, Lookup(v, from).value);
    case Move(from, path) =>
      FoundIsWellRead(v, from);
      AddedIsWellRead(RemoveAt(v, from).value, path, Lookup(v, from).value);
  }

  /** A move or a copy onto the whole document, which the RFC allows. */
  ghost predicate OntoRoot(v: Value, op: Op) {
    (op.Move? || op.Copy?) && op.path == [] && Lookup(v, op.from).Some? && (op.Move? ==> op.from != [])
  }

  lemma RemoveRoot(v: Value)
    ensures Run(v, Remove([])).None? && DoneBy(v, Remove([])).Some? && !Follows(v, Remove([]))
  {
  }

  lemma OntoRootAllowed(v: Value, op: Op)
    requires (op.Move? || op.Copy?) && op.path == []
    ensures Run(v, op).Some? <==> OntoRoot(v, op)
    ensures DoneBy(v, op).None?
  {
    if op.Move? && op.from != [] { NoPlace(v, op.from); }
  }

  /**
   * Where apply_patch and the RFC agree: a success is one of the RFC exactly when the operation stays clear of the
   * code's own ways, and a failure is one of the RFC exactly unless the target is the root.
   */
  lemma SucceedsIffRfcAllows(doc: Json, patch: Json, op: Op, caseSensitive: bool, ok: string -> bool)
    requires Fair(doc, op, caseSensitive, ok)
    requires Names(ok, caseSensitive)
    requires WellFormed(doc, ok) && Encodes(patch, op, caseSensitive, ok)
    ensures var status, v := ApplyPatch(doc, patch, caseSensitive).status, Meaning(doc);
      && (status == 0 ==> (Run(v, op).Some? <==> Follows(v, op)))
      && (status != 0 ==> (Run(v, op).None? <==> !OntoRoot(v, op)))
      && (Follows(v, op) ==> (status == 0 <==> Run(v, op).Some?))
  {
    hide WellFormed, Meaning, ApplyPatch, Run, DoneBy, Follows;
    var v := Meaning(doc);
    ApplyDoes(doc, patch, op, caseSensitive, ok);
    RemoveRoot(v);
    if Follows(v, op) { FollowsRun(v, op); }
    if (op.Move? || op.Copy?) && op.path == [] {
      OntoRootAllowed(v, op);
    } else if Run(v, op).Some? {
      AllowedFollows(v, op);
      FollowsRun(v, op);
    }
  }

  /** apply_patch carries out every operation the RFC allows, but for moves and copies onto the root. */
  lemma ApplyImplementsRfc(doc: Json, patch: Json, op: Op, caseSensitive: bool, ok: string -> bool)
    requires Fair(doc, op, caseSensitive, ok)
    requires Names(ok, caseSensitive)
    requires WellFormed(doc, ok) && Encodes(patch, op, caseSensitive, ok)
    requires Run(Meaning(doc), op).Some?
    requires op.Move? || op.Copy? ==> op.path != []
    ensures var r := ApplyPatch(doc, patch, caseSensitive);
            r.status == 0 && WellFormed(r.doc, ok) && Meaning(r.doc) == Run(Meaning(doc), op).value
  {
    hide WellFormed, Meaning, ApplyPatch, Run, DoneBy, Follows;
    ApplyDoes(doc, patch, op, caseSensitive, ok);
    RemoveRoot(Meaning(doc));
    AllowedFollows(Meaning(doc), op);
    FollowsRun(Meaning(doc), op);
  }

  /** Copying onto the whole document is refused. */
  lemma CopyToRootRefused(doc: Json, patch: Json, from: seq<string>, caseSensitive: bool, ok: string -> bool)
    requires Encodes(patch, Copy(from, []), caseSensitive, ok)
    ensures ApplyPatch(doc, patch, caseSensitive).status in {5, 9}
  {
    assert PathString([]) == "";
  }

  /** So is moving onto it; but then what was to be moved is gone. */
  lemma MoveToRootRefused(doc: Json, patch: Json, from: seq<string>, caseSensitive: bool, ok: string -> bool)
    requires DetachRight(doc, from, caseSensitive)
    requires Names(ok, caseSensitive)
    requires WellFormed(doc, ok) && Encodes(patch, Move(from, []), caseSensitive, ok)
    ensures var r, v' := ApplyPatch(doc, patch, caseSensitive), RemoveAt(Meaning(doc), AsRead(Meaning(doc), from));
      if v'.Some? then r.status == 9 && Meaning(r.doc) == v'.value else r == Outcome(5, doc)
  {
    hide WellFormed, Meaning, Carry, RemoveAt, AsRead, PathString, PlainPath;
    MoveDoes(doc, ReadPatch(patch, caseSensitive), Move(from, []), caseSensitive, ok);
  }

  /** A move below itself, always an error in the RFC, succeeds exactly when the target can be reached without the source. */
  lemma MoveBelowItselfSucceedsIff(doc: Json, patch: Json, from: seq<string>, path: seq<string>, caseSensitive: bool, ok: string -> bool)
    requires DetachRight(doc, from, caseSensitive)
    requires Names(ok, caseSensitive)
    requires WellFormed(doc, ok) && Encodes(patch, Move(from, path), caseSensitive, ok) && from < path
    ensures var v, f := Meaning(doc), AsRead(Meaning(doc), from);
      && Run(v, Move(from, path)).None?
      && (ApplyPatch(doc, patch, caseSensitive).status == 0
          <==> Lookup(v, f).Some? && RemoveAt(v, f).Some?
               && var v' := RemoveAt(v, f).value; AddAt(v', AsRead(v', path), Lookup(v, f).value).Some?)
  {
    hide WellFormed, Meaning, ApplyPatch, AsRead, Lookup, RemoveAt, AddAt, PathString, PlainPath;
    ApplyDoes(doc, patch, Move(from, path), caseSensitive, ok);
  }

  lemma TwoEmptyArrays(v: Value, v': Value)
    requires v == VArray([VArray([]), VArray([])]) && v' == VArray([VArray([])])
    ensures Lookup(v, ["0"]) == Some(VArray([])) && RemoveAt(v, ["0"]) == Some(v')
    ensures AddAt(v', ["0", "-"], VArray([])).Some?
  {
    assert NumberOf("0") == 0 && IsIndex("0") by { assert "0"[..0] == ""; }
    assert ["0"][1..] == [] && Front(["0"]) == [] && Last(["0"]) == "0";
    assert v.items[..0] + v.items[1..] == v'.items;
    assert RemoveFrom(v, "0") == Some(v');
    assert Front(["0", "-"]) == ["0"] && Last(["0", "-"]) == "-";
    assert Lookup(v', ["0"]) == Some(VArray([]));
    assert AddTo(VArray([]), "-", VArray([])) == Some(VArray([VArray([])]));
  }

  lemma ArrayDetachRight(doc: Json, token: string, caseSensitive: bool)
    requires doc.Array?
    ensures DetachRight(doc, [token], caseSensitive)
  {
    assert Front([token]) == [] && PathString([]) == "";
    assert GetItem(doc, "", caseSensitive) == Some([]);
  }

  lemma TwoEmptyNodes(doc: Json, ok: string -> bool)
    requires doc == Array(Node("", Array(End), Node("", Array(End), End)))
    ensures Meaning(doc) == VArray([VArray([]), VArray([])]) && WellFormed(doc, ok)
  {
    var last := Node("", Array(End), End);
    assert Items(last) == [VArray([])];
  }

  /** It goes through when the next element takes the place of the moved one. */
  lemma MoveBelowItselfMaySucceed(doc: Json, patch: Json, caseSensitive: bool, ok: string -> bool)
    requires Names(ok, caseSensitive)
    requires doc == Array(Node("", Array(End), Node("", Array(End), End)))
    requires Encodes(patch, Move(["0"], ["0", "-"]), caseSensitive, ok)
    ensures Run(Meaning(doc), Move(["0"], ["0", "-"])).None?
    ensures ApplyPatch(doc, patch, caseSensitive).status == 0
  {
    hide ApplyPatch, PathString, WellFormed, AddAt, RemoveAt, Lookup, Meaning, AsRead, DetachRight, Names, Encodes;
    ArrayDetachRight(doc, "0", caseSensitive);
    var from, path, v, v' := ["0"], ["0", "-"], Meaning(doc), VArray([VArray([])]);
    TwoEmptyNodes(doc, ok);
    TwoEmptyArrays(v, v');
    FoundIsWellRead(v, from);
    WellReadStays(v, from);
    AddedIsWellRead(v', path, VArray([]));
    WellReadStays(v', path);
    assert from < path;
    MoveBelowItselfSucceedsIff(doc, patch, from, path, caseSensitive, ok);
  }
}
