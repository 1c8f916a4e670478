/** Taking members out by name: the search folds case even when the caller asks for case to count. */
module CaseFolding {
  import opened Basics
  import opened CStrings
  import opened JsonModel
  import opened Pointers
  import opened Comparing
  import opened Rfc6902
  import opened Patching

  lemma {:induction false} FoldingIsEarlier(ns: Nodes, name: string)
    requires NulFree(name)
    ensures FindName(ns, name, false) <= FindKey(ns, name)
  {
    if ns.Node? {
      if ns.key == name { CompareAntisymmetric(name, name, false); }
      FoldingIsEarlier(ns.next, name);
    }
  }

  lemma {:induction false} FirstOfName(ns: Nodes, name: string)
    ensures FindKey(ns, name) < Length(ns) <==> name in Keys(ns)
    ensures FindKey(ns, name) < Length(ns) ==> KeyAt(ns, FindKey(ns, name)) == name
  {
    if ns.Node? && ns.key != name { FirstOfName(ns.next, name); }
  }

  /** The member of that very name goes and nothing else, or there is none. */
  ghost predicate TakesByName(ns: Nodes, name: string) {
    match DetachFrom(Object(ns), name)
    case None => name !in Keys(ns)
    case Some(d) => name in Keys(ns) && d.doc.Object? && Fields(d.doc.child) == Fields(ns) - {name}
  }

  /** That is so exactly if, folding case, no other name comes first. */
  lemma TakesByNameIff(ns: Nodes, name: string)
    requires Distinct(ns) && NulFree(name)
    ensures TakesByName(ns, name) <==> FoldsRight(Object(ns), name)
  {
    var k, j := FindName(ns, name, false), FindKey(ns, name);
    FoldingIsEarlier(ns, name);
    FirstOfName(ns, name);
    if k < Length(ns) {
      RemoveField(ns, k);
      NthMeaning(ns, k, AnyKey);
      if k < j { OtherName(ns, name, k); }
    }
  }

  lemma {:induction false} OtherName(ns: Nodes, name: string, k: nat)
    requires k < FindKey(ns, name) && k < Length(ns)
    ensures KeyAt(ns, k) != name
  {
    if k > 0 { OtherName(ns.next, name, k - 1); }
  }

  /** The members "a" and "A": asked for "A", the code takes "a". */
  lemma TakesTheOther(a: Json, b: Json)
    ensures var ns := Node("a", a, Node("A", b, End));
      DetachFrom(Object(ns), "A") == Some(Detached(a, Object(Node("A", b, End)))) && !TakesByName(ns, "A")
  {
    var rest := Node("A", b, End);
    var ns := Node("a", a, rest);
    assert CompareStrings("A", "a", false) == 0;
    assert "A" in Keys(ns) && "A" in Fields(rest);
    assert DetachFrom(Object(ns), "A") == Some(Detached(a, Object(rest)));
  }

  // ---------- removing and replacing, case-sensitively ----------

  /** Where the wrong member is met, the place it is taken from and what is left there. */
  lemma WrongOneGoes(doc: Json, path: seq<string>, ok: string -> bool) returns (front: seq<string>, less: Json, other: string)
    requires Names(ok, true) && WellFormed(doc, ok) && path != [] && PlainPath(path, ok)
    requires !DetachRight(doc, path, true)
    ensures front == AsRead(Meaning(doc), Front(path)) && Lookup(Meaning(doc), front).Some?
    ensures Lookup(Meaning(doc), front).value.VObject? && less.Object? && WellFormed(less, ok)
    ensures var m := Lookup(Meaning(doc), front).value.fields;
      other != Last(path) && other in m && Meaning(less) == VObject(m - {other})
    ensures var d := DetachPath(doc, PathString(path), true);
      && d.Some? && WellFormed(d.value.doc, ok) && Meaning(d.value.doc) == With(Meaning(doc), front, Meaning(less))
      && WellFormed(d.value.item, ok) && Meaning(d.value.item) == Lookup(Meaning(doc), front).value.fields[other]
  {
    hide PathString, GetItem, AsRead, WellRead, PlainPath, DecodePointer, LastSlash, With;
    FrontIsPlain(path, ok);
    DetachSplits(doc, path, true, ok);
    LeadsWhereRead(doc, Front(path), true, ok);
    front := AsRead(Meaning(doc), Front(path));
    var loc := GetItem(doc, PathString(Front(path)), true).value;
    var ns, name := At(doc, loc).child, Last(path);
    var k := FindName(ns, name, false);
    FoldingIsEarlier(ns, name);
    OtherName(ns, name, k);
    RemoveMeaning(ns, k, ok);
    RemoveField(ns, k);
    NthMeaning(ns, k, ok);
    DistinctFind(ns, k);
    FirstCounts(ns, KeyAt(ns, k));
    less, other := Object(RemoveNth(ns, k)), KeyAt(ns, k);
    AsReadReaches(doc, Front(path), true, ok);
    PutIsWith(doc, front, true, less, ok);
  }

  lemma Differ(v: Value, front: seq<string>, x: Value, y: Value)
    requires Lookup(v, front).Some? && x != y
    ensures With(v, front, x) != With(v, front, y)
  {
    LookupWith(v, front, x);
    LookupWith(v, front, y);
  }

  /** Case-sensitive removal is the RFC's exactly if, folding case, no other name comes first where it looks. */
  lemma RemoveIsRfcIff(doc: Json, patch: Json, path: seq<string>, ok: string -> bool)
    requires Names(ok, true) && WellFormed(doc, ok) && path != [] && Encodes(patch, Remove(path), true, ok)
    ensures Yields(ApplyPatch(doc, patch, true), RemoveAt(Meaning(doc), AsRead(Meaning(doc), path)), ok)
       <==> DetachRight(doc, path, true)
  {
    hide WellFormed, DetachRight, ApplyPatch, Names, AsRead, PathString;
    var v, p := Meaning(doc), AsRead(Meaning(doc), path);
    if DetachRight(doc, path, true) {
      ApplyDoes(doc, patch, Remove(path), true, ok);
    } else {
      var front, less, other := WrongOneGoes(doc, path, ok);
      RemovesWrong(doc, patch, path, ok);
      AsReadSplit(v, path);
      WrongRemoval(v, p, front, Last(path), less, other);
    }
  }

  lemma RemovesWrong(doc: Json, patch: Json, path: seq<string>, ok: string -> bool)
    requires path != [] && Encodes(patch, Remove(path), true, ok) && DetachPath(doc, PathString(path), true).Some?
    ensures ApplyPatch(doc, patch, true) == Outcome(0, DetachPath(doc, PathString(path), true).value.doc)
  {
    hide DetachPath;
    PathStringEmpty(path);
    CarryRemove(doc, ReadPatch(patch, true), PathString(path), true);
  }

  lemma WrongRemoval(v: Value, p: seq<string>, front: seq<string>, name: string, less: Json, other: string)
    requires Lookup(v, front).Some? && Lookup(v, front).value.VObject? && other in Lookup(v, front).value.fields && other != name
    requires p != [] && Front(p) == front && Last(p) == name
    requires Meaning(less) == VObject(Lookup(v, front).value.fields - {other})
    ensures RemoveAt(v, p) != Some(With(v, front, Meaning(less)))
  {
    hide With;
    var m := Lookup(v, front).value.fields;
    if name in m {
      assert other in m - {name} && other !in m - {other};
      Differ(v, front, VObject(m - {name}), Meaning(less));
    }
  }

  /** Case-sensitive replacement, likewise. */
  lemma ReplaceIsRfcIff(doc: Json, patch: Json, path: seq<string>, x: Value, ok: string -> bool)
    requires Names(ok, true) && WellFormed(doc, ok) && path != [] && Encodes(patch, Replace(path, x), true, ok)
    ensures var v, p := Meaning(doc), AsRead(Meaning(doc), path);
      Yields(ApplyPatch(doc, patch, true), if Lookup(v, p).Some? then Some(With(v, p, x)) else None, ok)
      <==> DetachRight(doc, path, true)
  {
    hide WellFormed, DetachRight, ApplyPatch, Names, AsRead, PathString, With, Lookup, Meaning;
    var v, p := Meaning(doc), AsRead(Meaning(doc), path);
    if DetachRight(doc, path, true) {
      ApplyDoes(doc, patch, Replace(path, x), true, ok);
    } else {
      ReplacesWrong(doc, patch, path, x, ok);
    }
  }

  lemma ReplacesWrong(doc: Json, patch: Json, path: seq<string>, x: Value, ok: string -> bool)
    requires Names(ok, true) && WellFormed(doc, ok) && path != [] && Encodes(patch, Replace(path, x), true, ok)
    requires !DetachRight(doc, path, true)
    ensures var v, p := Meaning(doc), AsRead(Meaning(doc), path);
      !Yields(ApplyPatch(doc, patch, true), if Lookup(v, p).Some? then Some(With(v, p, x)) else None, ok)
  {
    hide WellFormed, DetachRight, Names, AsRead, PathString, With, DetachPath, AddPath, Carry, Lookup, AddAt;
    var v, p, name := Meaning(doc), AsRead(Meaning(doc), path), Last(path);
    var r := ReadPatch(patch, true);
    var front, less, other := WrongOneGoes(doc, path, ok);
    var d := DetachPath(doc, PathString(path), true).value.doc;
    PathStringEmpty(path);
    CarryReplace(doc, r, PathString(path), true);
    AddPathDoes(d, path, r.value.value, true, ok);
    AsReadSplit(v, path);
    ReadsOn(v, path, front, Meaning(less));
    WrongReplacement(v, p, front, name, Meaning(less), other, x);
  }

  /** A path to a place is read in the same way when something else has been put there. */
  lemma {:induction false} ReadsSame(v: Value, path: seq<string>, x: Value)
    requires Lookup(v, AsRead(v, path)).Some?
    ensures AsRead(With(v, AsRead(v, path), x), path) == AsRead(v, path)
    decreases |path|
  {
    if path != [] {
      hide With;
      var t, p := ReadAs(v, path[0]), AsRead(v, path);
      assert p[0] == t;
      var c := Step(v, t).value;
      assert p[1..] == AsRead(c, path[1..]);
      ReadsSame(c, path[1..], x);
      var c' := With(c, p[1..], x);
      WithDown(v, p, x);
      SetThenStep(v, t, c', c');
      assert ReadAs(SetStep(v, t, c'), path[0]) == t;
    }
  }

  lemma WithDown(v: Value, p: seq<string>, x: Value)
    requires p != [] && Lookup(v, p).Some?
    ensures With(v, p, x) == SetStep(v, p[0], With(Step(v, p[0]).value, p[1..], x))
  {
  }

  /** So is the path of a member, if there is an object as before. */
  lemma ReadsOn(v: Value, path: seq<string>, front: seq<string>, less: Value)
    requires path != [] && front == AsRead(v, Front(path)) && less.VObject?
    requires Lookup(v, front).Some? && Lookup(v, front).value.VObject?
    ensures AsRead(With(v, front, less), path) == AsRead(v, path) == front + [Last(path)]
  {
    hide AsRead, With, Lookup;
    var v' := With(v, front, less);
    ReadsSame(v, Front(path), less);
    LookupWith(v, front, less);
    AsReadSplit(v, path);
    AsReadSplit(v', path);
    var p, p' := AsRead(v, path), AsRead(v', path);
    assert p == Front(p) + [Last(p)] && p' == Front(p') + [Last(p')];
  }

  lemma WrongReplacement(v: Value, p: seq<string>, front: seq<string>, name: string, less: Value, other: string, x: Value)
    requires Lookup(v, front).Some? && Lookup(v, front).value.VObject? && other in Lookup(v, front).value.fields && other != name
    requires p == front + [name] && less == VObject(Lookup(v, front).value.fields - {other})
    ensures var v' := With(v, front, less);
      AddAt(v', p, x).Some? && (Lookup(v, p).Some? ==> AddAt(v', p, x).value != With(v, p, x))
  {
    var m := Lookup(v, front).value.fields;
    assert Front(p) == front && Last(p) == name;
    LookupWith(v, front, less);
    var now := VObject((m - {other})[name := x]);
    WithWith(v, front, less, now);
    LookupSnoc(v, front, name);
    if Lookup(v, p).Some? {
      WithSnoc(v, front, name, x);
      assert other in m[name := x] && other !in (m - {other})[name := x];
      Differ(v, front, now, VObject(m[name := x]));
    }
  }

  lemma MovedUp(v: Value, m: map<string, Value>, name: string, x: Value)
    requires v == VObject(map["p" := VObject(m)]) && name in m && m[name] == x
    ensures Lookup(v, ["p"]) == Some(VObject(m)) && Lookup(v, ["p", name]) == Some(x)
    ensures RemoveAt(v, ["p", name]) == Some(With(v, ["p"], VObject(m - {name})))
    ensures AddAt(With(v, ["p"], VObject(m - {name})), ["p"], x) == Some(VObject(map["p" := x]))
  {
    assert ["p"][1..] == [] && ["p", name][1..] == [name] && [name][1..] == [];
    assert Front(["p", name]) == ["p"] && Last(["p", name]) == name && Front(["p"]) == [] && Last(["p"]) == "p";
    assert Lookup(VObject(m), [name]) == Some(x) by { assert Lookup(x, []) == Some(x); }
    var less := VObject(m - {name});
    assert With(VObject(m), [], less) == less;
    var w := With(v, ["p"], less);
    assert w == VObject(v.fields["p" := less]);
    assert Lookup(w, []) == Some(w) && w.fields["p" := x] == map["p" := x];
    assert With(w, [], VObject(map["p" := x])) == VObject(map["p" := x]);
  }

  /** A move of the wrong member can still come to the right result: when both hold the same and the target is above them. */
  lemma MoveMayCoincide(doc: Json, patch: Json, x: Json, ok: string -> bool)
    requires Names(ok, true) && ok("p") && ok("a") && ok("A") && WellFormed(x, ok)
    requires doc == Object(Node("p", Object(Node("a", x, Node("A", x, End))), End))
    requires Encodes(patch, Move(["p", "A"], ["p"]), true, ok)
    ensures !DetachRight(doc, ["p", "A"], true)
    ensures Yields(ApplyPatch(doc, patch, true), Run(Meaning(doc), Move(["p", "A"], ["p"])), ok)
  {
    hide DetachPath, AddPath, Carry, PathString, AsRead, DetachRight, Lookup, With, AddAt, RemoveAt, Names;
    var from, path, X := ["p", "A"], ["p"], Meaning(x);
    var m := map["a" := X, "A" := X];
    PairDoc(doc, x, ok);
    MovedUp(Meaning(doc), m, "a", X);
    MovedUp(Meaning(doc), m, "A", X);
    assert !(from < path);
    var front, less, other := WrongOneGoes(doc, from, ok);
    PairFront(Meaning(doc), m);
    var d := DetachPath(doc, PathString(from), true).value;
    CarryMove(doc, ReadPatch(patch, true), PathString(path), PathString(from), true);
    AddPathDoes(d.doc, path, d.item, true, ok);
    AddedIsWellRead(Meaning(d.doc), path, X);
    WellReadStays(Meaning(d.doc), path);
  }

  lemma PairFront(v: Value, m: map<string, Value>)
    requires v == VObject(map["p" := VObject(m)])
    ensures AsRead(v, Front(["p", "A"])) == ["p"] && Last(["p", "A"]) == "A"
  {
    assert Front(["p", "A"]) == ["p"] && ["p"][1..] == [];
  }

  lemma PairDoc(doc: Json, x: Json, ok: string -> bool)
    requires Names(ok, true) && ok("p") && ok("a") && ok("A") && WellFormed(x, ok)
    requires doc == Object(Node("p", Object(Node("a", x, Node("A", x, End))), End))
    ensures WellFormed(doc, ok) && PlainPath(["p", "A"], ok) && PlainPath(["p"], ok)
    ensures Meaning(doc) == VObject(map["p" := VObject(map["a" := Meaning(x), "A" := Meaning(x)])])
    ensures !DetachRight(doc, ["p", "A"], true)
  {
    hide Separates, CompareStrings;
    PairFolds();
    var last := Node("A", x, End);
    var pair := Node("a", x, last);
    PairIsFine(x, ok);
    assert Fields(Node("p", Object(pair), End)) == map["p" := VObject(Fields(pair))];
    assert Front(["p", "A"]) == ["p"] && Last(["p", "A"]) == "A" && ["p"][1..] == [];
    assert PathString(["p"]) == "/p" + PathString([]) == "/p";
    GetP(doc, pair);
    assert FindName(pair, "A", false) == 0 && FindKey(pair, "A") == 1;
  }

  lemma PairIsFine(x: Json, ok: string -> bool)
    requires ok("p") && ok("a") && ok("A") && WellFormed(x, ok)
    ensures var pair := Node("a", x, Node("A", x, End));
      && Fields(pair) == map["a" := Meaning(x), "A" := Meaning(x)]
      && WellFormed(Object(pair), ok) && WellFormed(Object(Node("p", Object(pair), End)), ok)
  {
    var last := Node("A", x, End);
    var pair := Node("a", x, last);
    assert Fields(last) == map["A" := Meaning(x)];
    assert Keys(End) == {} && Keys(last) == {"A"} && "a"[0] != "A"[0];
    assert Distinct(last) && "a" !in Keys(last);
    assert Distinct(pair);
    assert KeysOk(last, ok) && KeysOk(pair, ok);
    assert ValuesWellFormed(last, ok) && ValuesWellFormed(pair, ok);
    var top := Node("p", Object(pair), End);
    assert Distinct(top) && KeysOk(top, ok) && ValuesWellFormed(top, ok);
  }

  lemma PairFolds()
    ensures CompareStrings("A", "a", false) == 0
  {
  }

  lemma GetP(doc: Json, pair: Nodes)
    requires doc == Object(Node("p", Object(pair), End))
    ensures GetItem(doc, "/p", true) == Some([0]) && At(doc, [0]) == Object(pair)
  {
    assert "/p" == "/" + "p" + "" && SkipToken("p" + "") == "" by { assert "p" + "" == "p"; SkipPlain("p", ""); }
    MatchMeansSame("p", "p", "", true);
    GetThrough(doc, "p", "", true);
    assert FindMember(doc.child, "p" + "", true) == 0;
    assert Nth(doc.child, 0) == Object(pair);
    assert GetItem(Object(pair), "", true) == Some([]);
    assert [0] + [] == [0] && [0][1..] == [];
  }
}
