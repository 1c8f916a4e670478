/** Sorting of object members, and the two structural comparisons of trees. */
module Comparing {
  import opened Basics
  import opened CStrings
  import opened JsonModel
  import opened Sorting

  // ---------- sizes ----------

  function Size(j: Json): (n: nat)
    ensures n > 0
  {
    if j.Array? || j.Object? then 1 + ChainSize(j.child) else 1
  }

  function ChainSize(ns: Nodes): nat {
    if ns.End? then 0 else Size(ns.value) + ChainSize(ns.next)
  }

  lemma {:induction false} NthSmaller(ns: Nodes, i: nat)
    requires i < Length(ns)
    ensures Size(Nth(ns, i)) <= ChainSize(ns)
  {
    if i > 0 { NthSmaller(ns.next, i - 1); }
  }

  // ---------- sorted chains ----------

  function NameOf(n: Named): string { n.key }

  function SortNodes(ns: Nodes, caseSensitive: bool): Nodes {
    FromSeq(Sort(ToSeq(ns), NameOf, caseSensitive))
  }

  predicate Before(a: string, b: string) {
    CompareStrings(a, b, true) < 0
  }

  predicate StrictlySorted(ns: Nodes) {
    ns.End? || ns.next.End? || (Before(ns.key, ns.next.key) && StrictlySorted(ns.next))
  }

  /** Key rules under which both comparison modes put every two keys in the same order. */
  ghost predicate Agreeing(ok: string -> bool) {
    forall k, l :: ok(k) && ok(l) ==> AnyKey(k) && Agree(k, l)
  }

  /** Keys without upper-case letters are a case of that. */
  lemma LowersAgree(ok: string -> bool)
    requires forall k :: ok(k) ==> LowerKey(k)
    ensures Agreeing(ok)
  {
    forall k, l | ok(k) && ok(l) ensures AnyKey(k) && Agree(k, l) {
      LowerAgrees(k, l);
    }
  }

  lemma {:induction false} OkToSeq(ns: Nodes, ok: string -> bool)
    requires KeysOk(ns, ok)
    ensures forall n :: n in ToSeq(ns) ==> ok(NameOf(n))
  {
    if ns.Node? {
      OkToSeq(ns.next, ok);
      assert ToSeq(ns) == [Named(ns.key, ns.value)] + ToSeq(ns.next);
    }
  }

  lemma AgreeingToSeq(ns: Nodes, ok: string -> bool)
    requires Agreeing(ok) && KeysOk(ns, ok)
    ensures AgreeingKeys(ToSeq(ns), NameOf)
  {
    hide Agree;
    var s := ToSeq(ns);
    OkToSeq(ns, ok);
    forall i | 0 <= i < |s| ensures NulFree(NameOf(s[i])) { assert s[i] in s; }
  }

  lemma {:induction false} OrderedIsSorted(s: seq<Named>)
    requires NulFreeKeys(s, NameOf) && Ordered(s, NameOf, true) && Distinct(FromSeq(s))
    ensures StrictlySorted(FromSeq(s))
  {
    if |s| > 1 {
      assert NulFreeKeys(s[1..], NameOf) && Ordered(s[1..], NameOf, true) by {
        assert forall i :: 0 <= i < |s| - 1 ==> s[1..][i] == s[i + 1];
      }
      OrderedIsSorted(s[1..]);
      assert s[1..][0] == s[1];
      assert NameOf(s[0]) == s[0].key && NameOf(s[1]) == s[1].key;
      CompareZero(s[0].key, s[1].key, true);
      assert CompareStrings(NameOf(s[0]), NameOf(s[1]), true) <= 0;
    }
  }

  lemma OrderedEither(s: seq<Named>)
    requires AgreeingKeys(s, NameOf) && Ordered(s, NameOf, false)
    ensures Ordered(s, NameOf, true)
  {
    hide CompareStrings;
    forall i, k | 0 <= i < k < |s| ensures CompareStrings(NameOf(s[i]), NameOf(s[k]), true) <= 0 {
      assert s[i] in s && s[k] in s;
    }
  }

  /** Sorting keeps the meaning of an object and puts its keys in strict order, with either flag. */
  lemma SortedNodes(ns: Nodes, caseSensitive: bool, ok: string -> bool)
    requires Agreeing(ok) && KeysOk(ns, ok) && Distinct(ns)
    ensures StrictlySorted(SortNodes(ns, caseSensitive))
    ensures Fields(SortNodes(ns, caseSensitive)) == Fields(ns)
    ensures Keys(SortNodes(ns, caseSensitive)) == Keys(ns)
    ensures Distinct(SortNodes(ns, caseSensitive)) && KeysOk(SortNodes(ns, caseSensitive), ok)
    ensures ValuesWellFormed(ns, ok) ==> ValuesWellFormed(SortNodes(ns, caseSensitive), ok)
    ensures SortNodes(ns, caseSensitive) == SortNodes(ns, false)
  {
    hide Ordered, AgreeingKeys, NulFreeKeys, Sort, Agreeing;
    var s := ToSeq(ns);
    AgreeingToSeq(ns, ok);
    SortIgnoresFlag(s, NameOf);
    var t := Sort(s, NameOf, false);
    SortPermutes(s, NameOf, false);
    PermutationMeaning(ns, t, ok);
    AgreeingNulFree(s);
    SortOrders(s, NameOf);
    ToFromSeq(t);
    AgreeingToSeq(FromSeq(t), ok);
    AgreeingNulFree(t);
    OrderedEither(t);
    OrderedIsSorted(t);
  }

  lemma AgreeingNulFree(s: seq<Named>)
    requires AgreeingKeys(s, NameOf)
    ensures NulFreeKeys(s, NameOf)
  {
  }

  lemma {:induction false} InsertSize(s: seq<Named>, i: nat)
    requires i < |s|
    ensures ChainSize(FromSeq(s)) == ChainSize(FromSeq(DropAt(s, i))) + Size(s[i].value)
  {
    if i == 0 {
      assert DropAt(s, 0) == s[1..];
    } else {
      DropStep(s, i);
      InsertSize(s[1..], i - 1);
    }
  }

  lemma {:induction false} PermutationSize(ns: Nodes, s: seq<Named>)
    requires multiset(ToSeq(ns)) == multiset(s)
    ensures ChainSize(FromSeq(s)) == ChainSize(ns)
  {
    if ns.Node? {
      assert ToSeq(ns)[0] in multiset(s);
      var i :| 0 <= i < |s| && s[i] == ToSeq(ns)[0];
      DropPermutes(ToSeq(ns), s, i);
      assert ToSeq(ns)[1..] == ToSeq(ns.next);
      PermutationSize(ns.next, DropAt(s, i));
      InsertSize(s, i);
    } else {
      assert |s| == |multiset(s)| == 0;
    }
  }

  lemma SortSize(ns: Nodes, caseSensitive: bool)
    ensures ChainSize(SortNodes(ns, caseSensitive)) == ChainSize(ns)
  {
    SortPermutes(ToSeq(ns), NameOf, caseSensitive);
    PermutationSize(ns, Sort(ToSeq(ns), NameOf, caseSensitive));
  }

  lemma BeforeTransitive(a: string, b: string, c: string)
    requires AnyKey(a) && AnyKey(b) && AnyKey(c) && Before(a, b) && Before(b, c)
    ensures Before(a, c)
  {
    CompareTransitive(a, b, c, true);
  }

  /** A key in front of a sorted chain is not in it. */
  lemma {:induction false} FrontIsFresh(key: string, ns: Nodes, ok: string -> bool)
    requires Agreeing(ok) && AnyKey(key) && KeysOk(ns, ok)
    requires StrictlySorted(ns) && (ns.Node? ==> Before(key, ns.key))
    ensures key !in Keys(ns)
  {
    if ns.Node? {
      if ns.next.Node? {
        BeforeTransitive(key, ns.key, ns.next.key);
      }
      FrontIsFresh(key, ns.next, ok);
      CompareZero(key, key, true);
    }
  }

  // ---------- compare_json ----------

  datatype Compared = Compared(same: bool, a: Json, b: Json)
  datatype ComparedNodes = ComparedNodes(same: bool, a: Nodes, b: Nodes)

  predicate SameType(a: Json, b: Json) {
    || (a.Invalid? && b.Invalid?)
    || (a.Null? && b.Null?)
    || (a.False? && b.False?)
    || (a.True? && b.True?)
    || (a.Number? && b.Number?)
    || (a.Str? && b.Str?)
    || (a.Array? && b.Array?)
    || (a.Object? && b.Object?)
  }

  /** The verdict, and both trees as the comparison leaves them: objects on its way are sorted. */
  function CompareJson(a: Json, b: Json, caseSensitive: bool): Compared
    decreases Size(a) + Size(b), 0
  {
    if !SameType(a, b) then Compared(false, a, b)
    else
      match a
      case Number(n) => Compared(n == b.num, a, b)
      case Str(s) => Compared(s == b.text, a, b)
      case Array(ns) =>
        var r := CompareNodes(ns, b.child, false, caseSensitive);
        Compared(r.same, Array(r.a), Array(r.b))
      case Object(ns) =>
        SortSize(ns, caseSensitive);
        SortSize(b.child, caseSensitive);
        var r := CompareNodes(SortNodes(ns, caseSensitive), SortNodes(b.child, caseSensitive), true, caseSensitive);
        Compared(r.same, Object(r.a), Object(r.b))
      case _ => Compared(true, a, b)
  }

  function CompareNodes(a: Nodes, b: Nodes, named: bool, caseSensitive: bool): ComparedNodes
    decreases ChainSize(a) + ChainSize(b), 1, a
  {
    if a.End? || b.End? then ComparedNodes(a.End? && b.End?, a, b)
    else if named && CompareStrings(a.key, b.key, caseSensitive) != 0 then ComparedNodes(false, a, b)
    else
      var r := CompareJson(a.value, b.value, caseSensitive);
      if !r.same then ComparedNodes(false, a.(value := r.a), b.(value := r.b))
      else
        var rest := CompareNodes(a.next, b.next, named, caseSensitive);
        ComparedNodes(rest.same, Node(a.key, r.a, rest.a), Node(b.key, r.b, rest.b))
  }

  /** compare_json decides sameness of meaning, and only reorders what it compares. */
  lemma {:induction false} CompareJsonMeans(a: Json, b: Json, caseSensitive: bool, ok: string -> bool)
    requires Agreeing(ok) && WellFormed(a, ok) && WellFormed(b, ok)
    ensures var r := CompareJson(a, b, caseSensitive);
            && (r.same <==> Meaning(a) == Meaning(b))
            && Meaning(r.a) == Meaning(a) && WellFormed(r.a, ok)
            && Meaning(r.b) == Meaning(b) && WellFormed(r.b, ok)
    decreases Size(a) + Size(b), 0
  {
    if SameType(a, b) {
      match a
      case Array(ns) =>
        CompareItemsMeans(ns, b.child, caseSensitive, ok);
      case Object(ns) =>
        SortSize(ns, caseSensitive);
        SortSize(b.child, caseSensitive);
        SortedNodes(ns, caseSensitive, ok);
        SortedNodes(b.child, caseSensitive, ok);
        CompareFieldsMeans(SortNodes(ns, caseSensitive), SortNodes(b.child, caseSensitive), caseSensitive, ok);
      case _ =>
    }
  }

  lemma {:induction false} CompareItemsMeans(a: Nodes, b: Nodes, caseSensitive: bool, ok: string -> bool)
    requires Agreeing(ok) && ValuesWellFormed(a, ok) && ValuesWellFormed(b, ok)
    ensures var r := CompareNodes(a, b, false, caseSensitive);
            && (r.same <==> Items(a) == Items(b))
            && Items(r.a) == Items(a) && ValuesWellFormed(r.a, ok)
            && Items(r.b) == Items(b) && ValuesWellFormed(r.b, ok)
    decreases ChainSize(a) + ChainSize(b), 1, a
  {
    if a.Node? && b.Node? {
      CompareJsonMeans(a.value, b.value, caseSensitive, ok);
      CompareItemsMeans(a.next, b.next, caseSensitive, ok);
      assert Items(a)[0] == Meaning(a.value) && Items(b)[0] == Meaning(b.value);
      assert Items(a)[1..] == Items(a.next) && Items(b)[1..] == Items(b.next);
    }
  }

  /** `x` is `y` up to the order of members further down. */
  ghost predicate Reordered(x: Nodes, y: Nodes, ok: string -> bool) {
    && Keys(x) == Keys(y) && Fields(x) == Fields(y)
    && ValuesWellFormed(x, ok) && KeysOk(x, ok) && Distinct(x)
  }

  lemma ReorderedStep(key: string, v: Json, w: Json, x: Nodes, y: Nodes, ok: string -> bool)
    requires Reordered(x, y, ok) && ok(key) && key !in Keys(y)
    requires Meaning(v) == Meaning(w) && WellFormed(v, ok)
    ensures Reordered(Node(key, v, x), Node(key, w, y), ok)
  {
  }

  lemma {:induction false} CompareFieldsMeans(a: Nodes, b: Nodes, caseSensitive: bool, ok: string -> bool)
    requires Agreeing(ok) && ValuesWellFormed(a, ok) && ValuesWellFormed(b, ok)
    requires KeysOk(a, ok) && KeysOk(b, ok) && Distinct(a) && Distinct(b)
    requires StrictlySorted(a) && StrictlySorted(b)
    ensures CompareNodes(a, b, true, caseSensitive).same <==> Fields(a) == Fields(b)
    ensures Reordered(CompareNodes(a, b, true, caseSensitive).a, a, ok)
    ensures Reordered(CompareNodes(a, b, true, caseSensitive).b, b, ok)
    decreases ChainSize(a) + ChainSize(b), 1, a
  {
    if a.End? || b.End? {
      assert a.Node? ==> a.key in Fields(a);
      assert b.Node? ==> b.key in Fields(b);
    } else {
      CompareAgreeing(a.key, b.key, caseSensitive, ok);
      if a.key != b.key {
        HeadsDiffer(a, b, ok);
      } else {
        CompareJsonMeans(a.value, b.value, caseSensitive, ok);
        CompareFieldsMeans(a.next, b.next, caseSensitive, ok);
        SameFields(Fields(a.next), Fields(b.next), a.key, Meaning(a.value), Meaning(b.value));
        var r := CompareJson(a.value, b.value, caseSensitive);
        var rest := if r.same then CompareNodes(a.next, b.next, true, caseSensitive) else ComparedNodes(false, a.next, b.next);
        ReorderedStep(a.key, r.a, a.value, rest.a, a.next, ok);
        ReorderedStep(b.key, r.b, b.value, rest.b, b.next, ok);
      }
    }
  }

  lemma CompareAgreeing(k: string, l: string, caseSensitive: bool, ok: string -> bool)
    requires Agreeing(ok) && ok(k) && ok(l)
    ensures CompareStrings(k, l, caseSensitive) == 0 <==> k == l
  {
    hide CompareStrings;
    CompareZero(k, l, true);
    assert Agree(k, l);
  }

  lemma HeadsDiffer(a: Nodes, b: Nodes, ok: string -> bool)
    requires Agreeing(ok) && a.Node? && b.Node? && a.key != b.key
    requires KeysOk(a, ok) && KeysOk(b, ok) && StrictlySorted(a) && StrictlySorted(b)
    ensures Fields(a) != Fields(b)
  {
    CompareZero(a.key, b.key, true);
    CompareAntisymmetric(a.key, b.key, true);
    if Before(a.key, b.key) {
      FrontIsFresh(a.key, b, ok);
      assert a.key in Fields(a);
    } else {
      FrontIsFresh(b.key, a, ok);
      assert b.key in Fields(b);
    }
  }

  lemma SameFields(m: map<string, Value>, n: map<string, Value>, k: string, x: Value, y: Value)
    requires k !in m && k !in n
    ensures m[k := x] == n[k := y] <==> x == y && m == n
  {
    if m[k := x] == n[k := y] {
      assert m[k := x][k] == n[k := y][k];
      assert m == m[k := x] - {k} && n == n[k := y] - {k};
    }
  }

  // ---------- when the case-sensitive comparison sees member order ----------

  lemma {:induction false} CompareSelf(j: Json, caseSensitive: bool)
    ensures CompareJson(j, j, caseSensitive).same
    decreases Size(j), 0
  {
    match j
    case Array(ns) => CompareSelfNodes(ns, false, caseSensitive);
    case Object(ns) =>
      SortSize(ns, caseSensitive);
      CompareSelfNodes(SortNodes(ns, caseSensitive), true, caseSensitive);
    case _ =>
  }

  lemma {:induction false} CompareSelfNodes(ns: Nodes, named: bool, caseSensitive: bool)
    ensures CompareNodes(ns, ns, named, caseSensitive).same
    decreases ChainSize(ns), 1, ns
  {
    if ns.Node? {
      CompareAntisymmetric(ns.key, ns.key, caseSensitive);
      CompareSelf(ns.value, caseSensitive);
      CompareSelfNodes(ns.next, named, caseSensitive);
    }
  }

  /** Sorted chains that compare the same have the same names in the same order. */
  lemma {:induction false} SameNames(a: Nodes, b: Nodes)
    requires KeysOk(a, AnyKey) && KeysOk(b, AnyKey) && CompareNodes(a, b, true, true).same
    ensures StrictlySorted(a) <==> StrictlySorted(b)
    decreases ChainSize(a) + ChainSize(b), a
  {
    if a.Node? {
      CompareZero(a.key, b.key, true);
      SameNames(a.next, b.next);
      if a.next.Node? { CompareZero(a.next.key, b.next.key, true); }
    }
  }

  /** Names in the order of strcmp, no two the same, have one arrangement only. */
  lemma {:induction false} OneOrder(a: seq<Named>, b: seq<Named>)
    requires multiset(a) == multiset(b) && NulFreeKeys(a, NameOf) && NulFreeKeys(b, NameOf)
    requires Ordered(a, NameOf, true) && Ordered(b, NameOf, true) && Distinct(FromSeq(a))
    ensures a == b
  {
    SameElements(a, b);
    if a != [] {
      SameFirst(a, b);
      DropPermutes(a, b, 0);
      assert DropAt(b, 0) == b[1..];
      OneOrder(a[1..], b[1..]);
    }
  }

  lemma SameFirst(a: seq<Named>, b: seq<Named>)
    requires a != [] && b != [] && Among(a, b) && Among(b, a) && NulFreeKeys(a, NameOf)
    requires Ordered(a, NameOf, true) && Ordered(b, NameOf, true) && Distinct(FromSeq(a))
    ensures a[0] == b[0]
  {
    hide CompareStrings, FromSeq, Distinct;
    assert a[0] in b && b[0] in a;
    var i :| 0 <= i < |b| && b[i] == a[0];
    var k :| 0 <= k < |a| && a[k] == b[0];
    CompareAntisymmetric(NameOf(a[0]), NameOf(a[0]), true);
    CompareAntisymmetric(NameOf(a[0]), NameOf(b[0]), true);
    CompareZero(a[0].key, b[0].key, true);
    if k > 0 { NameAhead(a, k); }
  }

  lemma {:induction false} NameAhead(s: seq<Named>, k: nat)
    requires 0 < k < |s| && Distinct(FromSeq(s))
    ensures s[0].key != s[k].key
  {
    NameInside(s[1..], k - 1);
  }

  lemma {:induction false} NameInside(s: seq<Named>, k: nat)
    requires k < |s|
    ensures s[k].key in Keys(FromSeq(s))
  {
    if k > 0 { NameInside(s[1..], k - 1); }
  }

  lemma {:induction false} SortedStays(s: seq<Named>)
    requires StrictlySorted(FromSeq(s))
    ensures Ascending(s, NameOf, true)
  {
    if |s| > 1 {
      SortedStays(s[1..]);
      assert forall i :: 0 < i < |s| - 1 ==> s[i] == s[1..][i - 1] && s[i + 1] == s[1..][i];
    }
  }

  /** Sorting an arrangement of the same members, case-sensitively. */
  ghost predicate Rearranged(ns: Nodes, s: seq<Named>) {
    && multiset(s) == multiset(ToSeq(ns)) && NulFreeKeys(s, NameOf)
    && Distinct(FromSeq(s)) && KeysOk(FromSeq(s), AnyKey)
  }

  lemma Rearranges(ns: Nodes, s: seq<Named>)
    requires Distinct(ns) && KeysOk(ns, AnyKey) && multiset(s) == multiset(ToSeq(ns))
    ensures Rearranged(ns, s)
  {
    PermutationMeaning(ns, s, AnyKey);
    OkToSeq(FromSeq(s), AnyKey);
    ToFromSeq(s);
    forall i | 0 <= i < |s| ensures NulFree(NameOf(s[i])) { assert s[i] in s; }
  }

  /** The members in the order of strcmp: sorting leaves them as they are. */
  lemma InOrderOf(ns: Nodes) returns (w: seq<Named>)
    requires Distinct(ns) && KeysOk(ns, AnyKey)
    ensures Rearranged(ns, w) && Ordered(w, NameOf, true) && StrictlySorted(FromSeq(w)) && Sort(w, NameOf, true) == w
  {
    hide Ordered, NulFreeKeys;
    Rearranges(ns, ToSeq(ns));
    w := ArrangeInOrder(ToSeq(ns), NameOf);
    Rearranges(ns, w);
    OrderedIsSorted(w);
    SortedStays(w);
  }

  /**
   * The case-sensitive comparison finds an object the same as every rearrangement of it
   * exactly when the case-sensitive sort gets its names right.
   */
  lemma CompareIgnoresOrderIff(ns: Nodes)
    requires Distinct(ns) && KeysOk(ns, AnyKey)
    ensures (forall ms: Nodes :: multiset(ToSeq(ms)) == multiset(ToSeq(ns)) ==> CompareJson(Object(ns), Object(ms), true).same)
       <==> SortsRight(ToSeq(ns), NameOf)
  {
    hide SortsRight, CompareJson, ToSeq;
    if SortsRight(ToSeq(ns), NameOf) {
      forall ms: Nodes | multiset(ToSeq(ms)) == multiset(ToSeq(ns)) ensures CompareJson(Object(ns), Object(ms), true).same {
        ComparedRight(ns, ms);
      }
    } else {
      var ms := CaseSensitiveCompareDependsOnOrder(ns);
    }
  }

  lemma ComparedRight(ns: Nodes, ms: Nodes)
    requires Distinct(ns) && KeysOk(ns, AnyKey) && multiset(ToSeq(ms)) == multiset(ToSeq(ns))
    requires SortsRight(ToSeq(ns), NameOf)
    ensures CompareJson(Object(ns), Object(ms), true).same
  {
    hide SortsRight, CompareNodes, Sort, KeysOk;
    SortsAlike(ns, ms);
    SortSize(ns, true);
    SortSize(ms, true);
    CompareSelfNodes(SortNodes(ns, true), true, true);
  }

  /** Otherwise some object of the same meaning is taken for another: one in the order of strcmp, or one sorted wrongly. */
  lemma CaseSensitiveCompareDependsOnOrder(ns: Nodes) returns (ms: Nodes)
    requires Distinct(ns) && KeysOk(ns, AnyKey) && !SortsRight(ToSeq(ns), NameOf)
    ensures multiset(ToSeq(ms)) == multiset(ToSeq(ns)) && Meaning(Object(ms)) == Meaning(Object(ns))
    ensures !CompareJson(Object(ns), Object(ms), true).same
  {
    hide SortsRight, NulFreeKeys, Ordered, CompareJson, Sort, Merge, StrictlySorted, KeysOk, Distinct, Fields, Meaning;
    var s := ToSeq(ns);
    Rearranges(ns, s);
    CaseSensitiveSortIff(s, NameOf);
    var t: seq<Named> :| multiset(t) == multiset(s) && !Ordered(Sort(t, NameOf, true), NameOf, true);
    var w := InOrderOf(ns);
    ToFromSeq(w);
    ToFromSeq(t);
    ComparedSorted(ns, FromSeq(w));
    ComparedSorted(ns, FromSeq(t));
    UnsortedSeq(ns, t);
    ms := if CompareJson(Object(ns), Object(FromSeq(w)), true).same then FromSeq(t) else FromSeq(w);
    SameMembersMean(ns, ms);
  }

  lemma SameMembersMean(ns: Nodes, ms: Nodes)
    requires Distinct(ns) && multiset(ToSeq(ms)) == multiset(ToSeq(ns))
    ensures Meaning(Object(ms)) == Meaning(Object(ns))
  {
    PermutationMeaning(ns, ToSeq(ms), AnyKey);
    FromToSeq(ms);
  }

  lemma ComparedSorted(ns: Nodes, ms: Nodes)
    requires Distinct(ns) && KeysOk(ns, AnyKey) && multiset(ToSeq(ms)) == multiset(ToSeq(ns))
    ensures CompareJson(Object(ns), Object(ms), true).same
      ==> (StrictlySorted(SortNodes(ns, true)) <==> StrictlySorted(SortNodes(ms, true)))
  {
    hide Sort, StrictlySorted, NulFreeKeys, CompareNodes;
    SortPermutes(ToSeq(ns), NameOf, true);
    SortPermutes(ToSeq(ms), NameOf, true);
    Rearranges(ns, Sort(ToSeq(ns), NameOf, true));
    Rearranges(ns, Sort(ToSeq(ms), NameOf, true));
    if CompareJson(Object(ns), Object(ms), true).same {
      SortSize(ns, true);
      SortSize(ms, true);
      SameNames(SortNodes(ns, true), SortNodes(ms, true));
    }
  }

  lemma UnsortedSeq(ns: Nodes, t: seq<Named>)
    requires Distinct(ns) && KeysOk(ns, AnyKey) && multiset(t) == multiset(ToSeq(ns))
    requires !Ordered(Sort(t, NameOf, true), NameOf, true)
    ensures !StrictlySorted(FromSeq(Sort(t, NameOf, true)))
  {
    hide Sort, CompareStrings;
    var r := Sort(t, NameOf, true);
    SortPermutes(t, NameOf, true);
    Rearranges(ns, r);
    if StrictlySorted(FromSeq(r)) {
      SortedStays(r);
      forall i, k | 0 <= i < k < |r| ensures CompareStrings(NameOf(r[i]), NameOf(r[k]), true) <= 0 {
        AscendingOrders(r, NameOf, true, i, k);
      }
    }
  }

  lemma SortsAlike(ns: Nodes, ms: Nodes)
    requires Distinct(ns) && KeysOk(ns, AnyKey) && multiset(ToSeq(ms)) == multiset(ToSeq(ns))
    requires SortsRight(ToSeq(ns), NameOf)
    ensures SortNodes(ns, true) == SortNodes(ms, true)
  {
    hide SortsRight, Ordered, NulFreeKeys, Sort;
    var s, t := ToSeq(ns), ToSeq(ms);
    Rearranges(ns, s);
    CaseSensitiveSortIff(s, NameOf);
    SortPermutes(s, NameOf, true);
    SortPermutes(t, NameOf, true);
    Rearranges(ns, Sort(s, NameOf, true));
    Rearranges(ns, Sort(t, NameOf, true));
    OneOrder(Sort(s, NameOf, true), Sort(t, NameOf, true));
  }

  // ---------- cJSON_Compare ----------

  /** The position of the first node the lookup by name accepts, or the length. */
  function FindName(ns: Nodes, name: string, caseSensitive: bool): (i: nat)
    ensures i <= Length(ns)
  {
    if ns.End? || CompareStrings(name, ns.key, caseSensitive) == 0 then 0
    else 1 + FindName(ns.next, name, caseSensitive)
  }

  predicate Same(a: Json, b: Json, caseSensitive: bool)
    decreases Size(a) + Size(b), 0
  {
    if !SameType(a, b) || a.Invalid? then false
    else
      match a
      case Number(n) => n == b.num
      case Str(s) => s == b.text
      case Array(ns) => SameItems(ns, b.child, caseSensitive)
      case Object(ns) => AllFound(ns, b.child, caseSensitive) && AllFound(b.child, ns, caseSensitive)
      case _ => true
  }

  predicate SameItems(a: Nodes, b: Nodes, caseSensitive: bool)
    decreases ChainSize(a) + ChainSize(b), 1, a
  {
    if a.End? || b.End? then a.End? && b.End?
    else Same(a.value, b.value, caseSensitive) && SameItems(a.next, b.next, caseSensitive)
  }

  /** Every member of `a` has its like in `b`. */
  predicate AllFound(a: Nodes, b: Nodes, caseSensitive: bool)
    decreases ChainSize(a) + ChainSize(b), 1, a
  {
    a.End? ||
    (var i := FindName(b, a.key, caseSensitive);
     && i < Length(b)
     && (NthSmaller(b, i); Same(a.value, Nth(b, i), caseSensitive))
     && AllFound(a.next, b, caseSensitive))
  }

  /** Only trees without invalid nodes are the same as anything. */
  lemma {:induction false} SameIsComplete(a: Json, b: Json, caseSensitive: bool)
    requires Same(a, b, caseSensitive)
    ensures Complete(a) && Complete(b)
    decreases Size(a) + Size(b), 0
  {
    match a
    case Array(ns) => SameItemsComplete(ns, b.child, caseSensitive);
    case Object(ns) =>
      FoundComplete(ns, b.child, caseSensitive);
      FoundComplete(b.child, ns, caseSensitive);
    case _ =>
  }

  lemma {:induction false} SameItemsComplete(a: Nodes, b: Nodes, caseSensitive: bool)
    requires SameItems(a, b, caseSensitive)
    ensures ChainComplete(a) && ChainComplete(b)
    decreases ChainSize(a) + ChainSize(b), 1, a
  {
    if a.Node? {
      SameIsComplete(a.value, b.value, caseSensitive);
      SameItemsComplete(a.next, b.next, caseSensitive);
    }
  }

  lemma {:induction false} FoundComplete(a: Nodes, b: Nodes, caseSensitive: bool)
    requires AllFound(a, b, caseSensitive)
    ensures ChainComplete(a)
    decreases ChainSize(a) + ChainSize(b), 1, a
  {
    hide Same;
    if a.Node? {
      var i := FindName(b, a.key, caseSensitive);
      NthSmaller(b, i);
      SameIsComplete(a.value, Nth(b, i), caseSensitive);
      FoundComplete(a.next, b, caseSensitive);
    }
  }

  /** The key rule a comparison mode needs to tell names apart. */
  ghost predicate Separates(ok: string -> bool, caseSensitive: bool) {
    forall k, l :: ok(k) && ok(l) ==> AnyKey(k) && (!caseSensitive && SameFolded(k, l) ==> k == l)
  }

  /** Names in the same order for both comparisons are told apart by either. */
  lemma AgreeingSeparates(ok: string -> bool, caseSensitive: bool)
    requires Agreeing(ok)
    ensures Separates(ok, caseSensitive)
  {
    forall k, l | ok(k) && ok(l) ensures AnyKey(k) && (!caseSensitive && SameFolded(k, l) ==> k == l) {
      assert Agree(k, l) && AnyKey(k) && AnyKey(l);
      CompareZero(k, l, true);
      CompareZero(k, l, false);
    }
  }

  lemma {:induction false} FindNameIsFindKey(ns: Nodes, name: string, caseSensitive: bool, ok: string -> bool)
    requires Separates(ok, caseSensitive) && KeysOk(ns, ok) && ok(name)
    ensures FindName(ns, name, caseSensitive) == FindKey(ns, name)
  {
    if ns.Node? {
      CompareZero(name, ns.key, caseSensitive);
      if name == ns.key { SameFoldedSelf(name); }
      FindNameIsFindKey(ns.next, name, caseSensitive, ok);
    }
  }

  /** cJSON_Compare holds exactly between trees that mean the same value. */
  lemma {:induction false} SameIffSameMeaning(a: Json, b: Json, caseSensitive: bool, ok: string -> bool)
    requires Separates(ok, caseSensitive) && WellFormed(a, ok) && WellFormed(b, ok)
    ensures Same(a, b, caseSensitive) <==> Meaning(a) == Meaning(b)
    decreases Size(a) + Size(b), 0
  {
    if SameType(a, b) {
      match a
      case Array(ns) => SameItemsMeans(ns, b.child, caseSensitive, ok);
      case Object(ns) =>
        AllFoundMeans(ns, b.child, caseSensitive, ok);
        AllFoundMeans(b.child, ns, caseSensitive, ok);
        MutuallyWithin(Fields(ns), Fields(b.child));
      case _ =>
    }
  }

  lemma {:induction false} SameItemsMeans(a: Nodes, b: Nodes, caseSensitive: bool, ok: string -> bool)
    requires Separates(ok, caseSensitive) && ValuesWellFormed(a, ok) && ValuesWellFormed(b, ok)
    ensures SameItems(a, b, caseSensitive) <==> Items(a) == Items(b)
    decreases ChainSize(a) + ChainSize(b), 1, a
  {
    if a.Node? && b.Node? {
      SameIffSameMeaning(a.value, b.value, caseSensitive, ok);
      SameItemsMeans(a.next, b.next, caseSensitive, ok);
      assert Items(a)[0] == Meaning(a.value) && Items(b)[0] == Meaning(b.value);
      assert Items(a)[1..] == Items(a.next) && Items(b)[1..] == Items(b.next);
    }
  }

  ghost predicate Within(m: map<string, Value>, n: map<string, Value>) {
    forall k :: k in m ==> k in n && m[k] == n[k]
  }

  lemma MutuallyWithin(m: map<string, Value>, n: map<string, Value>)
    ensures Within(m, n) && Within(n, m) <==> m == n
  {
  }

  lemma {:induction false} AllFoundMeans(a: Nodes, b: Nodes, caseSensitive: bool, ok: string -> bool)
    requires Separates(ok, caseSensitive) && ValuesWellFormed(a, ok) && ValuesWellFormed(b, ok)
    requires KeysOk(a, ok) && KeysOk(b, ok) && Distinct(a) && Distinct(b)
    ensures AllFound(a, b, caseSensitive) <==> Within(Fields(a), Fields(b))
    decreases ChainSize(a) + ChainSize(b), 1, a
  {
    if a.Node? {
      FindNameIsFindKey(b, a.key, caseSensitive, ok);
      AllFoundMeans(a.next, b, caseSensitive, ok);
      WithinStep(Fields(a.next), a.key, Meaning(a.value), Fields(b));
      var i := FindKey(b, a.key);
      if i < Length(b) {
        NthSmaller(b, i);
        NthMeaning(b, i, ok);
        FirstCounts(b, a.key);
        SameIffSameMeaning(a.value, Nth(b, i), caseSensitive, ok);
      }
    }
  }

  lemma WithinStep(m: map<string, Value>, k: string, v: Value, n: map<string, Value>)
    requires k !in m
    ensures Within(m[k := v], n) <==> k in n && n[k] == v && Within(m, n)
  {
    if Within(m[k := v], n) {
      assert m[k := v][k] == v;
      forall x | x in m ensures x in n && m[x] == n[x] { assert m[k := v][x] == m[x]; }
    }
  }

  lemma AnySeparates()
    ensures Separates(AnyKey, true)
  {
  }

  /** So it is an equivalence that does not see member order. */
  lemma SameIsEquivalence(a: Json, b: Json, c: Json)
    requires WellFormed(a, AnyKey) && WellFormed(b, AnyKey) && WellFormed(c, AnyKey)
    ensures Same(a, a, true)
    ensures Same(a, b, true) ==> Same(b, a, true)
    ensures Same(a, b, true) && Same(b, c, true) ==> Same(a, c, true)
    ensures a.Object? && WellFormed(a, LowerKey) ==> Same(a, Object(SortNodes(a.child, false)), true)
  {
    hide Separates, Agreeing;
    AnySeparates();
    SameIffSameMeaning(a, a, true, AnyKey);
    SameIffSameMeaning(a, b, true, AnyKey);
    SameIffSameMeaning(b, a, true, AnyKey);
    SameIffSameMeaning(b, c, true, AnyKey);
    SameIffSameMeaning(a, c, true, AnyKey);
    if a.Object? && WellFormed(a, LowerKey) {
      LowersAgree(LowerKey);
      AgreeingSeparates(LowerKey, true);
      SortedNodes(a.child, false, LowerKey);
      SameIffSameMeaning(a, Object(SortNodes(a.child, false)), true, LowerKey);
    }
  }
}
