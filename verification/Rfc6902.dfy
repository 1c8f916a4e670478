/** JSON Patch on values: the operations of section 4 of RFC 6902, with paths as lists of unescaped tokens. */
module Rfc6902 {
  import opened Basics
  import opened CStrings
  import opened JsonModel
  import opened Pointers

  datatype Op =
    | Add(path: seq<string>, value: Value)
    | Remove(path: seq<string>)
    | Replace(path: seq<string>, value: Value)
    | Move(from: seq<string>, path: seq<string>)
    | Copy(from: seq<string>, path: seq<string>)
    | Test(path: seq<string>, value: Value)

  datatype Ops = Done | Do(op: Op, rest: Ops)

  function Join(a: Ops, b: Ops): Ops {
    if a.Done? then b else a.(rest := Join(a.rest, b))
  }

  /** The child one token below. */
  function Step(v: Value, token: string): Option<Value> {
    match v
    case VObject(m) => if token in m then Some(m[token]) else None
    case VArray(s) => if IsIndex(token) && NumberOf(token) < |s| then Some(s[NumberOf(token)]) else None
    case _ => None
  }

  function SetStep(v: Value, token: string, x: Value): Value
    requires Step(v, token).Some?
  {
    if v.VObject? then VObject(v.fields[token := x]) else VArray(v.items[NumberOf(token) := x])
  }

  function Lookup(v: Value, path: seq<string>): Option<Value> {
    if path == [] then Some(v)
    else
      match Step(v, path[0])
      case None => None
      case Some(c) => Lookup(c, path[1..])
  }

  /** `v` with the value at `path` exchanged for `x`. */
  function With(v: Value, path: seq<string>, x: Value): Value
    requires Lookup(v, path).Some?
    decreases path
  {
    if path == [] then x else SetStep(v, path[0], With(Step(v, path[0]).value, path[1..], x))
  }

  function Front(path: seq<string>): seq<string>
    requires path != []
  {
    path[..|path| - 1]
  }

  function Last(path: seq<string>): string
    requires path != []
  {
    path[|path| - 1]
  }

  /** Section 4.1: into an object the member is added or replaced, into an array it is inserted or appended. */
  function AddTo(parent: Value, token: string, x: Value): Option<Value> {
    match parent
    case VObject(m) => Some(VObject(m[token := x]))
    case VArray(s) =>
      if token == "-" then Some(VArray(s + [x]))
      else if IsIndex(token) && NumberOf(token) <= |s| then
        Some(VArray(s[..NumberOf(token)] + [x] + s[NumberOf(token)..]))
      else None
    case _ => None
  }

  /** Section 4.2: the target must exist; elements behind it move up. */
  function RemoveFrom(parent: Value, token: string): Option<Value> {
    if Step(parent, token).None? then None
    else if parent.VObject? then Some(VObject(parent.fields - {token}))
    else Some(VArray(parent.items[..NumberOf(token)] + parent.items[NumberOf(token) + 1..]))
  }

  function AddAt(v: Value, path: seq<string>, x: Value): Option<Value> {
    if path == [] then Some(x)
    else
      match Lookup(v, Front(path))
      case None => None
      case Some(parent) =>
        match AddTo(parent, Last(path), x)
        case None => None
        case Some(parent') => Some(With(v, Front(path), parent'))
  }

  function RemoveAt(v: Value, path: seq<string>): Option<Value> {
    if path == [] then None
    else
      match Lookup(v, Front(path))
      case None => None
      case Some(parent) =>
        match RemoveFrom(parent, Last(path))
        case None => None
        case Some(parent') => Some(With(v, Front(path), parent'))
  }

  /** One operation; `None` when the RFC makes it an error. Removing or moving the whole document is not covered. */
  function Run(v: Value, op: Op): Option<Value> {
    match op
    case Add(path, x) => AddAt(v, path, x)
    case Remove(path) => RemoveAt(v, path)
    case Replace(path, x) => if Lookup(v, path).Some? then Some(With(v, path, x)) else None
    case Test(path, x) => if Lookup(v, path) == Some(x) then Some(v) else None
    case Copy(from, path) =>
      (match Lookup(v, from)
       case None => None
       case Some(x) => AddAt(v, path, x))
    case Move(from, path) =>
      if from == [] || from < path then None
      else
        match (Lookup(v, from), RemoveAt(v, from))
        case (Some(x), Some(v')) => AddAt(v', path, x)
        case _ => None
  }

  /** A whole patch document: the first error ends it. */
  function RunAll(v: Value, ops: Ops): Option<Value>
    decreases ops
  {
    if ops.Done? then Some(v)
    else
      match Run(v, ops.op)
      case None => None
      case Some(v') => RunAll(v', ops.rest)
  }

  lemma {:induction false} RunJoin(v: Value, a: Ops, b: Ops)
    ensures RunAll(v, Join(a, b))
         == match RunAll(v, a) { case None => None case Some(v') => RunAll(v', b) }
    decreases a
  {
    if a.Do? && Run(v, a.op).Some? {
      RunJoin(Run(v, a.op).value, a.rest, b);
    }
  }

  // ---------- lookup and replacement along a path ----------

  lemma {:induction false} LookupSnoc(v: Value, path: seq<string>, token: string)
    ensures Lookup(v, path + [token])
         == match Lookup(v, path) { case None => None case Some(c) => Step(c, token) }
  {
    if path == [] {
      assert [] + [token] == [token] && [token][1..] == [];
      if Step(v, token).Some? { assert Lookup(Step(v, token).value, []) == Step(v, token); }
    } else {
      assert (path + [token])[1..] == path[1..] + [token];
      if Step(v, path[0]).Some? { LookupSnoc(Step(v, path[0]).value, path[1..], token); }
    }
  }

  lemma SetThenStep(v: Value, token: string, x: Value, y: Value)
    requires Step(v, token).Some?
    ensures Step(SetStep(v, token, x), token) == Some(x)
    ensures SetStep(SetStep(v, token, x), token, y) == SetStep(v, token, y)
    ensures SetStep(v, token, Step(v, token).value) == v
  {
    if v.VObject? {
      assert v.fields[token := x][token := y] == v.fields[token := y];
      assert v.fields[token := v.fields[token]] == v.fields;
    }
  }

  lemma {:induction false} LookupWith(v: Value, path: seq<string>, x: Value)
    requires Lookup(v, path).Some?
    ensures Lookup(With(v, path, x), path) == Some(x)
    decreases path
  {
    if path != [] {
      var c := Step(v, path[0]).value;
      LookupWith(c, path[1..], x);
      SetThenStep(v, path[0], With(c, path[1..], x), x);
    }
  }

  lemma {:induction false} WithWith(v: Value, path: seq<string>, x: Value, y: Value)
    requires Lookup(v, path).Some? && Lookup(With(v, path, x), path).Some?
    ensures With(With(v, path, x), path, y) == With(v, path, y)
    decreases path
  {
    if path != [] {
      var c := Step(v, path[0]).value;
      WithWith(c, path[1..], x, y);
      SetThenStep(v, path[0], With(c, path[1..], x), With(c, path[1..], y));
    }
  }

  lemma {:induction false} WithSame(v: Value, path: seq<string>)
    requires Lookup(v, path).Some?
    ensures With(v, path, Lookup(v, path).value) == v
    decreases path
  {
    if path != [] {
      var c := Step(v, path[0]).value;
      WithSame(c, path[1..]);
      SetThenStep(v, path[0], c, c);
    }
  }

  lemma {:induction false} WithSnoc(v: Value, path: seq<string>, token: string, x: Value)
    requires Lookup(v, path).Some? && Step(Lookup(v, path).value, token).Some?
    ensures Lookup(v, path + [token]).Some?
    ensures With(v, path + [token], x) == With(v, path, SetStep(Lookup(v, path).value, token, x))
    decreases path
  {
    LookupSnoc(v, path, token);
    if path == [] {
      assert [] + [token] == [token] && [token][1..] == [];
      assert With(Step(v, token).value, [], x) == x;
    } else {
      assert (path + [token])[1..] == path[1..] + [token] && (path + [token])[0] == path[0];
      WithSnoc(Step(v, path[0]).value, path[1..], token, x);
    }
  }

  // ---------- operations next to each other ----------

  /** `v` is `base` with `cur` at `path`: the state in the middle of rewriting one node. */
  ghost predicate Holds(v: Value, base: Value, path: seq<string>, cur: Value) {
    && Lookup(base, path).Some?
    && v == With(base, path, cur)
    && Lookup(v, path) == Some(cur)
  }

  lemma HoldsFirst(v: Value, path: seq<string>)
    requires Lookup(v, path).Some?
    ensures Holds(v, v, path, Lookup(v, path).value)
  {
    WithSame(v, path);
  }

  lemma HoldsNext(v: Value, base: Value, path: seq<string>, cur: Value, next: Value)
    requires Holds(v, base, path, cur)
    ensures With(v, path, next) == With(base, path, next)
    ensures Holds(With(v, path, next), base, path, next)
  {
    WithWith(base, path, cur, next);
    LookupWith(base, path, next);
  }

  lemma RunAdd(v: Value, base: Value, path: seq<string>, cur: Value, token: string, x: Value, next: Value) returns (v': Value)
    requires Holds(v, base, path, cur) && AddTo(cur, token, x) == Some(next)
    ensures Run(v, Add(path + [token], x)) == Some(v') && Holds(v', base, path, next)
  {
    assert Front(path + [token]) == path;
    HoldsNext(v, base, path, cur, next);
    v' := With(v, path, next);
  }

  lemma RunRemove(v: Value, base: Value, path: seq<string>, cur: Value, token: string, next: Value) returns (v': Value)
    requires Holds(v, base, path, cur) && RemoveFrom(cur, token) == Some(next)
    ensures Run(v, Remove(path + [token])) == Some(v') && Holds(v', base, path, next)
  {
    assert Front(path + [token]) == path;
    HoldsNext(v, base, path, cur, next);
    v' := With(v, path, next);
  }

  /** Rewriting a child rewrites the node above it. */
  lemma HoldsUp(v: Value, v': Value, base: Value, path: seq<string>, cur: Value, token: string, x: Value)
    requires Holds(v, base, path, cur) && Step(cur, token).Some?
    requires Lookup(v, path + [token]).Some? && v' == With(v, path + [token], x)
    ensures Holds(v', base, path, SetStep(cur, token, x))
  {
    WithSnoc(v, path, token, x);
    HoldsNext(v, base, path, cur, SetStep(cur, token, x));
  }
}
