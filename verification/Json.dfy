/** cJSON trees, the values they mean, and the addressing of nodes inside a tree. */
module JsonModel {
  import opened Basics
  import opened CStrings

  /** A cJSON node without its name and its links. */
  datatype Json =
    | Invalid
    | Null
    | False
    | True
    | Number(num: int)
    | Str(text: string)
    | Array(child: Nodes)
    | Object(child: Nodes)

  /** A chain of siblings in `next` order; the names of array elements carry no meaning. */
  datatype Nodes = End | Node(key: string, value: Json, next: Nodes)

  /** What a tree means: objects are finite maps, so member order is gone. */
  datatype Value =
    | VInvalid
    | VNull
    | VFalse
    | VTrue
    | VNumber(num: int)
    | VStr(text: string)
    | VArray(items: seq<Value>)
    | VObject(fields: map<string, Value>)

  // ---------- sibling chains ----------

  function Length(ns: Nodes): nat {
    if ns.End? then 0 else 1 + Length(ns.next)
  }

  function Nth(ns: Nodes, i: nat): (c: Json)
    requires i < Length(ns)
    ensures c < ns
  {
    if i == 0 then ns.value else Nth(ns.next, i - 1)
  }

  function KeyAt(ns: Nodes, i: nat): string
    requires i < Length(ns)
  {
    if i == 0 then ns.key else KeyAt(ns.next, i - 1)
  }

  function SetNth(ns: Nodes, i: nat, v: Json): (r: Nodes)
    requires i < Length(ns)
    ensures Length(r) == Length(ns) && Nth(r, i) == v && KeyAt(r, i) == KeyAt(ns, i)
  {
    if i == 0 then ns.(value := v) else ns.(next := SetNth(ns.next, i - 1, v))
  }

  function RemoveNth(ns: Nodes, i: nat): (r: Nodes)
    requires i < Length(ns)
    ensures Length(r) == Length(ns) - 1
  {
    if i == 0 then ns.next else ns.(next := RemoveNth(ns.next, i - 1))
  }

  function InsertNth(ns: Nodes, i: nat, key: string, v: Json): (r: Nodes)
    requires i <= Length(ns)
    ensures Length(r) == Length(ns) + 1
  {
    if i == 0 then Node(key, v, ns) else ns.(next := InsertNth(ns.next, i - 1, key, v))
  }

  function Append(ns: Nodes, key: string, v: Json): (r: Nodes)
    ensures Length(r) == Length(ns) + 1
  {
    if ns.End? then Node(key, v, End) else ns.(next := Append(ns.next, key, v))
  }

  function Concat(a: Nodes, b: Nodes): (r: Nodes)
    ensures Length(r) == Length(a) + Length(b)
  {
    if a.End? then b else a.(next := Concat(a.next, b))
  }

  function Keys(ns: Nodes): set<string> {
    if ns.End? then {} else {ns.key} + Keys(ns.next)
  }

  /** The position of the first node called `key`, or the length. */
  function FindKey(ns: Nodes, key: string): (i: nat)
    ensures i <= Length(ns)
    ensures i < Length(ns) ==> KeyAt(ns, i) == key
    ensures i < Length(ns) <==> key in Keys(ns)
  {
    if ns.End? || ns.key == key then 0 else 1 + FindKey(ns.next, key)
  }

  // ---------- meaning ----------

  function Meaning(j: Json): Value {
    match j
    case Invalid => VInvalid
    case Null => VNull
    case False => VFalse
    case True => VTrue
    case Number(n) => VNumber(n)
    case Str(s) => VStr(s)
    case Array(ns) => VArray(Items(ns))
    case Object(ns) => VObject(Fields(ns))
  }

  function Items(ns: Nodes): (vs: seq<Value>)
    ensures |vs| == Length(ns)
  {
    if ns.End? then [] else [Meaning(ns.value)] + Items(ns.next)
  }

  /** The first node of each name counts, as in a lookup. */
  function Fields(ns: Nodes): (m: map<string, Value>)
    ensures m.Keys == Keys(ns)
  {
    if ns.End? then map[] else Fields(ns.next)[ns.key := Meaning(ns.value)]
  }

  /** No node of the invalid type anywhere. */
  predicate Complete(j: Json) {
    !j.Invalid? && (j.Array? || j.Object? ==> ChainComplete(j.child))
  }

  predicate ChainComplete(ns: Nodes) {
    ns.End? || (Complete(ns.value) && ChainComplete(ns.next))
  }

  predicate Distinct(ns: Nodes) {
    ns.End? || (ns.key !in Keys(ns.next) && Distinct(ns.next))
  }

  /** No invalid node, and in every object distinct keys that satisfy `ok`. */
  ghost predicate WellFormed(j: Json, ok: string -> bool) {
    match j
    case Invalid => false
    case Array(ns) => ValuesWellFormed(ns, ok)
    case Object(ns) => Distinct(ns) && KeysOk(ns, ok) && ValuesWellFormed(ns, ok)
    case _ => true
  }

  ghost predicate ValuesWellFormed(ns: Nodes, ok: string -> bool) {
    ns.End? || (WellFormed(ns.value, ok) && ValuesWellFormed(ns.next, ok))
  }

  ghost predicate KeysOk(ns: Nodes, ok: string -> bool) {
    ns.End? || (ok(ns.key) && KeysOk(ns.next, ok))
  }

  function AnyKey(key: string): bool { NulFree(key) }

  function LowerKey(key: string): bool { NulFree(key) && IsLower(key) }

  lemma {:induction false} WeakerKeys(j: Json, strong: string -> bool, weak: string -> bool)
    requires forall k :: strong(k) ==> weak(k)
    requires WellFormed(j, strong)
    ensures WellFormed(j, weak)
  {
    match j
    case Array(ns) => WeakerNodes(ns, strong, weak);
    case Object(ns) => WeakerNodes(ns, strong, weak);
    case _ =>
  }

  lemma {:induction false} WeakerNodes(ns: Nodes, strong: string -> bool, weak: string -> bool)
    requires forall k :: strong(k) ==> weak(k)
    requires ValuesWellFormed(ns, strong)
    ensures ValuesWellFormed(ns, weak)
    ensures KeysOk(ns, strong) ==> KeysOk(ns, weak)
  {
    if ns.Node? {
      WeakerKeys(ns.value, strong, weak);
      WeakerNodes(ns.next, strong, weak);
    }
  }

  // ---------- what the chain operations do to the meaning ----------

  lemma {:induction false} NthMeaning(ns: Nodes, i: nat, ok: string -> bool)
    requires i < Length(ns)
    ensures Meaning(Nth(ns, i)) == Items(ns)[i]
    ensures ValuesWellFormed(ns, ok) ==> WellFormed(Nth(ns, i), ok)
    ensures KeysOk(ns, ok) ==> ok(KeyAt(ns, i))
    ensures KeyAt(ns, i) in Keys(ns)
  {
    if i > 0 { NthMeaning(ns.next, i - 1, ok); }
  }

  /** A lookup by name gives the meaning of the first node of that name. */
  lemma {:induction false} FirstCounts(ns: Nodes, key: string)
    requires key in Keys(ns)
    ensures Fields(ns)[key] == Meaning(Nth(ns, FindKey(ns, key)))
  {
    if ns.key != key { FirstCounts(ns.next, key); }
  }

  lemma {:induction false} DistinctFind(ns: Nodes, i: nat)
    requires Distinct(ns) && i < Length(ns)
    ensures FindKey(ns, KeyAt(ns, i)) == i
  {
    if i > 0 {
      DistinctFind(ns.next, i - 1);
    }
  }

  lemma UpdatesCommute(m: map<string, Value>, a: string, x: Value, b: string, y: Value)
    requires a != b
    ensures m[a := x][b := y] == m[b := y][a := x]
  {
  }

  lemma DropCommutes(m: map<string, Value>, a: string, b: string, y: Value)
    requires a != b
    ensures (m - {a})[b := y] == m[b := y] - {a}
  {
  }

  lemma {:induction false} AppendMeaning(ns: Nodes, key: string, v: Json, ok: string -> bool)
    ensures Items(Append(ns, key, v)) == Items(ns) + [Meaning(v)]
    ensures KeysOk(ns, ok) && ok(key) ==> KeysOk(Append(ns, key, v), ok)
    ensures ValuesWellFormed(ns, ok) && WellFormed(v, ok) ==> ValuesWellFormed(Append(ns, key, v), ok)
  {
    if ns.Node? {
      AppendMeaning(ns.next, key, v, ok);
    }
  }

  lemma {:induction false} AppendField(ns: Nodes, key: string, v: Json)
    ensures Keys(Append(ns, key, v)) == Keys(ns) + {key}
    ensures key !in Keys(ns) ==> Fields(Append(ns, key, v)) == Fields(ns)[key := Meaning(v)]
    ensures Distinct(ns) && key !in Keys(ns) ==> Distinct(Append(ns, key, v))
  {
    if ns.Node? {
      AppendField(ns.next, key, v);
      if key != ns.key {
        UpdatesCommute(Fields(ns.next), key, Meaning(v), ns.key, Meaning(ns.value));
      }
    }
  }

  lemma {:induction false} RemoveMeaning(ns: Nodes, i: nat, ok: string -> bool)
    requires i < Length(ns)
    ensures Items(RemoveNth(ns, i)) == Items(ns)[..i] + Items(ns)[i + 1..]
    ensures KeysOk(ns, ok) ==> KeysOk(RemoveNth(ns, i), ok)
    ensures ValuesWellFormed(ns, ok) ==> ValuesWellFormed(RemoveNth(ns, i), ok)
  {
    if i > 0 {
      RemoveMeaning(ns.next, i - 1, ok);
    }
  }

  lemma {:induction false} RemoveField(ns: Nodes, i: nat)
    requires i < Length(ns) && Distinct(ns)
    ensures Keys(RemoveNth(ns, i)) == Keys(ns) - {KeyAt(ns, i)}
    ensures Distinct(RemoveNth(ns, i))
    ensures Fields(RemoveNth(ns, i)) == Fields(ns) - {KeyAt(ns, i)}
  {
    if i > 0 {
      RemoveField(ns.next, i - 1);
      NthMeaning(ns.next, i - 1, AnyKey);
      DropCommutes(Fields(ns.next), KeyAt(ns, i), ns.key, Meaning(ns.value));
    }
  }

  lemma {:induction false} SetMeaning(ns: Nodes, i: nat, v: Json, ok: string -> bool)
    requires i < Length(ns)
    ensures Items(SetNth(ns, i, v)) == Items(ns)[i := Meaning(v)]
    ensures Keys(SetNth(ns, i, v)) == Keys(ns)
    ensures Distinct(ns) ==> Distinct(SetNth(ns, i, v))
    ensures KeysOk(ns, ok) ==> KeysOk(SetNth(ns, i, v), ok)
    ensures ValuesWellFormed(ns, ok) && WellFormed(v, ok) ==> ValuesWellFormed(SetNth(ns, i, v), ok)
  {
    if i > 0 {
      SetMeaning(ns.next, i - 1, v, ok);
    }
  }

  lemma {:induction false} SetField(ns: Nodes, i: nat, v: Json)
    requires i < Length(ns) && Distinct(ns)
    ensures Fields(SetNth(ns, i, v)) == Fields(ns)[KeyAt(ns, i) := Meaning(v)]
  {
    if i > 0 {
      SetField(ns.next, i - 1, v);
      NthMeaning(ns.next, i - 1, AnyKey);
      UpdatesCommute(Fields(ns.next), KeyAt(ns, i), Meaning(v), ns.key, Meaning(ns.value));
    }
  }

  lemma {:induction false} InsertMeaning(ns: Nodes, i: nat, key: string, v: Json, ok: string -> bool)
    requires i <= Length(ns)
    ensures Items(InsertNth(ns, i, key, v)) == Items(ns)[..i] + [Meaning(v)] + Items(ns)[i..]
    ensures ValuesWellFormed(ns, ok) && WellFormed(v, ok) ==> ValuesWellFormed(InsertNth(ns, i, key, v), ok)
  {
    if i > 0 {
      InsertMeaning(ns.next, i - 1, key, v, ok);
    }
  }

  // ---------- concatenation ----------

  lemma {:induction false} ConcatAssociates(a: Nodes, b: Nodes, c: Nodes)
    ensures Concat(Concat(a, b), c) == Concat(a, Concat(b, c))
  {
    if a.Node? { ConcatAssociates(a.next, b, c); }
  }

  lemma {:induction false} ConcatEnd(a: Nodes)
    ensures Concat(a, End) == a
  {
    if a.Node? { ConcatEnd(a.next); }
  }

  lemma {:induction false} AppendIsConcat(a: Nodes, key: string, v: Json)
    ensures Append(a, key, v) == Concat(a, Node(key, v, End))
  {
    if a.Node? { AppendIsConcat(a.next, key, v); }
  }

  // ---------- chains as sequences, for sorting ----------

  datatype Named = Named(key: string, value: Json)

  function ToSeq(ns: Nodes): (s: seq<Named>)
    ensures |s| == Length(ns)
  {
    if ns.End? then [] else [Named(ns.key, ns.value)] + ToSeq(ns.next)
  }

  function FromSeq(s: seq<Named>): Nodes {
    if s == [] then End else Node(s[0].key, s[0].value, FromSeq(s[1..]))
  }

  lemma {:induction false} FromToSeq(ns: Nodes)
    ensures FromSeq(ToSeq(ns)) == ns
  {
    if ns.Node? { FromToSeq(ns.next); }
  }

  lemma {:induction false} ToFromSeq(s: seq<Named>)
    ensures ToSeq(FromSeq(s)) == s
  {
    if s != [] { ToFromSeq(s[1..]); }
  }

  function DropAt(s: seq<Named>, i: nat): seq<Named>
    requires i < |s|
  {
    s[..i] + s[i + 1..]
  }

  lemma DropStep(s: seq<Named>, i: nat)
    requires 0 < i < |s|
    ensures DropAt(s, i) != [] && DropAt(s, i)[0] == s[0]
    ensures DropAt(s, i)[1..] == DropAt(s[1..], i - 1)
    ensures s[1..][i - 1] == s[i]
  {
  }

  lemma {:induction false} InsertIntoSeq(s: seq<Named>, i: nat, ok: string -> bool)
    requires i < |s| && s[i].key !in Keys(FromSeq(DropAt(s, i)))
    ensures Keys(FromSeq(s)) == Keys(FromSeq(DropAt(s, i))) + {s[i].key}
    ensures Fields(FromSeq(s)) == Fields(FromSeq(DropAt(s, i)))[s[i].key := Meaning(s[i].value)]
    ensures Distinct(FromSeq(DropAt(s, i))) ==> Distinct(FromSeq(s))
    ensures ok(s[i].key) && KeysOk(FromSeq(DropAt(s, i)), ok) ==> KeysOk(FromSeq(s), ok)
    ensures WellFormed(s[i].value, ok) && ValuesWellFormed(FromSeq(DropAt(s, i)), ok) ==> ValuesWellFormed(FromSeq(s), ok)
  {
    if i == 0 {
      assert DropAt(s, 0) == s[1..];
    } else {
      DropStep(s, i);
      InsertIntoSeq(s[1..], i - 1, ok);
      UpdatesCommute(Fields(FromSeq(DropAt(s[1..], i - 1))), s[i].key, Meaning(s[i].value), s[0].key, Meaning(s[0].value));
    }
  }

  /** Chains with the same nodes, in any order, mean the same map and are equally well formed. */
  lemma {:induction false} PermutationMeaning(ns: Nodes, s: seq<Named>, ok: string -> bool)
    requires Distinct(ns) && multiset(ToSeq(ns)) == multiset(s)
    ensures Keys(FromSeq(s)) == Keys(ns)
    ensures Distinct(FromSeq(s)) && Fields(FromSeq(s)) == Fields(ns)
    ensures KeysOk(ns, ok) ==> KeysOk(FromSeq(s), ok)
    ensures ValuesWellFormed(ns, ok) ==> ValuesWellFormed(FromSeq(s), ok)
  {
    if ns.Node? {
      assert ToSeq(ns)[0] == Named(ns.key, ns.value);
      assert ToSeq(ns)[0] in multiset(s);
      var i :| 0 <= i < |s| && s[i] == ToSeq(ns)[0];
      DropPermutes(ToSeq(ns), s, i);
      assert ToSeq(ns)[1..] == ToSeq(ns.next);
      PermutationMeaning(ns.next, DropAt(s, i), ok);
      InsertIntoSeq(s, i, ok);
    } else {
      assert |s| == |multiset(s)| == 0;
    }
  }

  lemma DropPermutes(a: seq<Named>, b: seq<Named>, i: nat)
    requires a != [] && multiset(a) == multiset(b) && i < |b| && b[i] == a[0]
    ensures multiset(a[1..]) == multiset(DropAt(b, i))
  {
    var x := multiset{a[0]};
    assert multiset(a) == x + multiset(a[1..]) by { assert a == [a[0]] + a[1..]; }
    assert multiset(b) == multiset(b[..i]) + x + multiset(b[i + 1..]) by { assert b == b[..i] + [b[i]] + b[i + 1..]; }
    assert multiset(a[1..]) == multiset(a) - x && multiset(DropAt(b, i)) == multiset(b) - x;
  }

  // ---------- nodes inside a tree ----------

  /** The number of children of a node. */
  function Width(j: Json): nat {
    if j.Array? || j.Object? then Length(j.child) else 0
  }

  function Child(j: Json, i: nat): (c: Json)
    requires i < Width(j)
    ensures c < j
  {
    Nth(j.child, i)
  }

  function SetChild(j: Json, i: nat, c: Json): (r: Json)
    requires i < Width(j)
    ensures Width(r) == Width(j) && Child(r, i) == c
  {
    j.(child := SetNth(j.child, i, c))
  }

  /** A node is named by the child positions that lead to it from the root. */
  predicate HasNode(j: Json, loc: seq<nat>) {
    loc == [] || (loc[0] < Width(j) && HasNode(Child(j, loc[0]), loc[1..]))
  }

  function At(j: Json, loc: seq<nat>): Json
    requires HasNode(j, loc)
  {
    if loc == [] then j else At(Child(j, loc[0]), loc[1..])
  }

  function Put(j: Json, loc: seq<nat>, x: Json): Json
    requires HasNode(j, loc)
    decreases loc
  {
    if loc == [] then x else SetChild(j, loc[0], Put(Child(j, loc[0]), loc[1..], x))
  }
}
