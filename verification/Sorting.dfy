/** The merge sort of object members by key, as an operation on sequences. */
module Sorting {
  import opened Basics
  import opened CStrings

  /** Strictly ascending neighbours: the test that lets a list stay as it is. */
  predicate Ascending<T>(s: seq<T>, key: T -> string, caseSensitive: bool) {
    forall i :: 0 <= i < |s| - 1 ==> CompareStrings(key(s[i]), key(s[i + 1]), caseSensitive) < 0
  }

  /** Ties go to the second list; the comparison always folds case. */
  function Merge<T>(a: seq<T>, b: seq<T>, key: T -> string): (r: seq<T>)
    ensures |r| == |a| + |b|
  {
    if a == [] then b
    else if b == [] then a
    else if CompareStrings(key(a[0]), key(b[0]), false) < 0 then [a[0]] + Merge(a[1..], b, key)
    else [b[0]] + Merge(a, b[1..], key)
  }

  function Sort<T>(s: seq<T>, key: T -> string, caseSensitive: bool): (r: seq<T>)
    ensures |r| == |s|
    decreases |s|
  {
    if |s| <= 1 || Ascending(s, key, caseSensitive) then s
    else
      var middle := (|s| + 1) / 2;
      Merge(Sort(s[..middle], key, caseSensitive), Sort(s[middle..], key, caseSensitive), key)
  }

  ghost predicate Ordered<T>(s: seq<T>, key: T -> string, caseSensitive: bool) {
    forall i, k :: 0 <= i < k < |s| ==> CompareStrings(key(s[i]), key(s[k]), caseSensitive) <= 0
  }

  ghost predicate NulFreeKeys<T>(s: seq<T>, key: T -> string) {
    forall i :: 0 <= i < |s| ==> NulFree(key(s[i]))
  }

  lemma {:induction false} MergePermutes<T>(a: seq<T>, b: seq<T>, key: T -> string)
    ensures multiset(Merge(a, b, key)) == multiset(a) + multiset(b)
  {
    if a != [] && b != [] {
      assert a == [a[0]] + a[1..] && b == [b[0]] + b[1..];
      MergePermutes(a[1..], b, key);
      MergePermutes(a, b[1..], key);
    }
  }

  lemma {:induction false} SortPermutes<T>(s: seq<T>, key: T -> string, caseSensitive: bool)
    ensures multiset(Sort(s, key, caseSensitive)) == multiset(s)
    decreases |s|, 1
  {
    if |s| > 1 && !Ascending(s, key, caseSensitive) {
      HalvesPermute(s, s[..(|s| + 1) / 2], s[(|s| + 1) / 2..], key, caseSensitive);
    }
  }

  lemma {:induction false} HalvesPermute<T>(s: seq<T>, a: seq<T>, b: seq<T>, key: T -> string, caseSensitive: bool)
    requires s == a + b && |a| < |s| && |b| < |s|
    ensures multiset(Merge(Sort(a, key, caseSensitive), Sort(b, key, caseSensitive), key)) == multiset(s)
    decreases |s|, 0
  {
    SortPermutes(a, key, caseSensitive);
    SortPermutes(b, key, caseSensitive);
    MergePermutes(Sort(a, key, caseSensitive), Sort(b, key, caseSensitive), key);
  }

  lemma {:induction false} PermutedKeys<T>(a: seq<T>, b: seq<T>, key: T -> string)
    requires multiset(a) == multiset(b) && NulFreeKeys(a, key)
    ensures NulFreeKeys(b, key)
  {
    forall i | 0 <= i < |b| ensures NulFree(key(b[i])) {
      assert b[i] in multiset(a);
    }
  }

  /** Neighbours in strict order put every earlier key before every later one. */
  lemma {:induction false} AscendingOrders<T>(s: seq<T>, key: T -> string, caseSensitive: bool, i: nat, k: nat)
    requires NulFreeKeys(s, key) && Ascending(s, key, caseSensitive) && i < k < |s|
    ensures CompareStrings(key(s[i]), key(s[k]), caseSensitive) < 0
    decreases k - i
  {
    if i + 1 < k {
      AscendingOrders(s, key, caseSensitive, i + 1, k);
      CompareTransitive(key(s[i]), key(s[i + 1]), key(s[k]), caseSensitive);
    }
  }

  /** `x` stays in front of everything it was in front of before the merge. */
  lemma {:induction false} BelowMerge<T>(x: T, a: seq<T>, b: seq<T>, key: T -> string)
    requires forall i :: 0 <= i < |a| ==> CompareStrings(key(x), key(a[i]), false) <= 0
    requires forall i :: 0 <= i < |b| ==> CompareStrings(key(x), key(b[i]), false) <= 0
    ensures forall i :: 0 <= i < |Merge(a, b, key)| ==> CompareStrings(key(x), key(Merge(a, b, key)[i]), false) <= 0
  {
    MergePermutes(a, b, key);
    var m := Merge(a, b, key);
    forall i | 0 <= i < |m| ensures CompareStrings(key(x), key(m[i]), false) <= 0 {
      assert m[i] in multiset(m);
      assert m[i] in multiset(a) || m[i] in multiset(b);
    }
  }

  lemma {:induction false} MergeOrders<T>(a: seq<T>, b: seq<T>, key: T -> string)
    requires NulFreeKeys(a, key) && NulFreeKeys(b, key)
    requires Ordered(a, key, false) && Ordered(b, key, false)
    ensures Ordered(Merge(a, b, key), key, false)
  {
    if a != [] && b != [] {
      if CompareStrings(key(a[0]), key(b[0]), false) < 0 {
        MergeOrders(a[1..], b, key);
        forall i | 0 <= i < |b| ensures CompareStrings(key(a[0]), key(b[i]), false) <= 0 {
          if i > 0 { CompareTransitive(key(a[0]), key(b[0]), key(b[i]), false); }
        }
        BelowMerge(a[0], a[1..], b, key);
      } else {
        MergeOrders(a, b[1..], key);
        CompareAntisymmetric(key(a[0]), key(b[0]), false);
        forall i | 0 <= i < |a| ensures CompareStrings(key(b[0]), key(a[i]), false) <= 0 {
          if i > 0 { CompareTransitive(key(b[0]), key(a[0]), key(a[i]), false); }
        }
        BelowMerge(b[0], a, b[1..], key);
      }
    }
  }

  /** The case-folding sort returns the keys in nondecreasing order. */
  lemma {:induction false} SortOrders<T>(s: seq<T>, key: T -> string)
    requires NulFreeKeys(s, key)
    ensures Ordered(Sort(s, key, false), key, false)
    decreases |s|
  {
    if |s| > 1 {
      if Ascending(s, key, false) {
        forall i, k | 0 <= i < k < |s| ensures CompareStrings(key(s[i]), key(s[k]), false) <= 0 {
          AscendingOrders(s, key, false, i, k);
        }
      } else {
        var middle := (|s| + 1) / 2;
        var a, b := s[..middle], s[middle..];
        SortOrders(a, key);
        SortOrders(b, key);
        SortPermutes(a, key, false);
        SortPermutes(b, key, false);
        PermutedKeys(a, Sort(a, key, false), key);
        PermutedKeys(b, Sort(b, key, false), key);
        MergeOrders(Sort(a, key, false), Sort(b, key, false), key);
      }
    }
  }

  // ---------- sorting what carries the keys ----------

  function Map<T, U>(f: T -> U, s: seq<T>): (r: seq<U>)
    ensures |r| == |s| && forall i :: 0 <= i < |s| ==> r[i] == f(s[i])
  {
    seq(|s|, i requires 0 <= i < |s| => f(s[i]))
  }

  lemma {:induction false} MergeCommutes<T, U>(a: seq<T>, b: seq<T>, f: T -> U, key: T -> string, key': U -> string)
    requires forall x :: key'(f(x)) == key(x)
    ensures Map(f, Merge(a, b, key)) == Merge(Map(f, a), Map(f, b), key')
  {
    hide CompareStrings;
    if a != [] && b != [] {
      if CompareStrings(key(a[0]), key(b[0]), false) < 0 {
        MergeCommutes(a[1..], b, f, key, key');
        assert Map(f, a)[1..] == Map(f, a[1..]);
      } else {
        MergeCommutes(a, b[1..], f, key, key');
        assert Map(f, b)[1..] == Map(f, b[1..]);
      }
    }
  }

  /** Sorting does not look at anything but the keys. */
  lemma {:induction false} SortCommutes<T, U>(s: seq<T>, f: T -> U, key: T -> string, key': U -> string, caseSensitive: bool)
    requires forall x :: key'(f(x)) == key(x)
    ensures Map(f, Sort(s, key, caseSensitive)) == Sort(Map(f, s), key', caseSensitive)
    decreases |s|
  {
    hide Merge, Sort, Ascending;
    AscendingCommutes(s, f, key, key', caseSensitive);
    SortHalves(s, key, caseSensitive);
    SortHalves(Map(f, s), key', caseSensitive);
    if |s| > 1 && !Ascending(s, key, caseSensitive) {
      var m := (|s| + 1) / 2;
      SortCommutes(s[..m], f, key, key', caseSensitive);
      SortCommutes(s[m..], f, key, key', caseSensitive);
      assert Map(f, s)[..m] == Map(f, s[..m]) && Map(f, s)[m..] == Map(f, s[m..]);
      MergeCommutes(Sort(s[..m], key, caseSensitive), Sort(s[m..], key, caseSensitive), f, key, key');
    }
  }

  lemma SortHalves<T>(s: seq<T>, key: T -> string, caseSensitive: bool)
    ensures var m := (|s| + 1) / 2;
      Sort(s, key, caseSensitive) == if |s| <= 1 || Ascending(s, key, caseSensitive) then s
        else Merge(Sort(s[..m], key, caseSensitive), Sort(s[m..], key, caseSensitive), key)
  {
  }

  lemma AscendingCommutes<T, U>(s: seq<T>, f: T -> U, key: T -> string, key': U -> string, caseSensitive: bool)
    requires forall x :: key'(f(x)) == key(x)
    ensures Ascending(Map(f, s), key', caseSensitive) <==> Ascending(s, key, caseSensitive)
  {
    hide CompareStrings;
    var t := Map(f, s);
    assert forall i :: 0 <= i < |s| ==> key'(t[i]) == key(s[i]);
    if Ascending(t, key', caseSensitive) {
      forall i | 0 <= i < |s| - 1 ensures CompareStrings(key(s[i]), key(s[i + 1]), caseSensitive) < 0 {
        assert key'(t[i]) == key(s[i]) && key'(t[i + 1]) == key(s[i + 1]);
      }
    }
  }

  // ---------- the order of strcmp ----------

  lemma {:induction false} InsertInOrder<T>(x: T, w: seq<T>, key: T -> string) returns (r: seq<T>)
    requires NulFreeKeys(w, key) && NulFree(key(x)) && Ordered(w, key, true)
    ensures multiset(r) == multiset(w) + multiset{x} && NulFreeKeys(r, key) && Ordered(r, key, true)
    ensures forall y :: y in r ==> y == x || y in w
  {
    hide CompareStrings;
    if w == [] || CompareStrings(key(x), key(w[0]), true) <= 0 {
      r := [x] + w;
      forall y | y in w ensures CompareStrings(key(x), key(y), true) <= 0 {
        var i :| 0 <= i < |w| && w[i] == y;
        if i > 0 { CompareTransitive(key(x), key(w[0]), key(y), true); }
      }
      InFront(x, w, key);
    } else {
      CompareAntisymmetric(key(x), key(w[0]), true);
      var rest := InsertInOrder(x, w[1..], key);
      r := [w[0]] + rest;
      assert w == [w[0]] + w[1..];
      InFront(w[0], rest, key);
    }
  }

  lemma InFront<T>(x: T, w: seq<T>, key: T -> string)
    requires NulFreeKeys(w, key) && NulFree(key(x)) && Ordered(w, key, true)
    requires forall y :: y in w ==> CompareStrings(key(x), key(y), true) <= 0
    ensures NulFreeKeys([x] + w, key) && Ordered([x] + w, key, true)
  {
    hide CompareStrings;
    forall i | 0 <= i < |w| ensures CompareStrings(key(x), key(w[i]), true) <= 0 { assert w[i] in w; }
  }

  /** Any list has an arrangement in the order of strcmp. */
  lemma {:induction false} ArrangeInOrder<T>(s: seq<T>, key: T -> string) returns (w: seq<T>)
    requires NulFreeKeys(s, key)
    ensures multiset(w) == multiset(s) && NulFreeKeys(w, key) && Ordered(w, key, true)
  {
    if s == [] {
      w := [];
    } else {
      w := ArrangeInOrder(s[1..], key);
      w := InsertInOrder(s[0], w, key);
      assert s == [s[0]] + s[1..];
    }
  }

  // ---------- what comes first ----------

  /** A tournament over the halves, in which an ascending stretch sends its first element; ties go to the second half. */
  function Winner<T>(s: seq<T>, key: T -> string, caseSensitive: bool): T
    requires s != []
    decreases |s|
  {
    if |s| <= 1 || Ascending(s, key, caseSensitive) then s[0]
    else
      var a := Winner(s[..(|s| + 1) / 2], key, caseSensitive);
      var b := Winner(s[(|s| + 1) / 2..], key, caseSensitive);
      if CompareStrings(key(a), key(b), false) < 0 then a else b
  }

  lemma {:induction false} WinnerIsFirst<T>(s: seq<T>, key: T -> string, caseSensitive: bool)
    requires s != []
    ensures Sort(s, key, caseSensitive)[0] == Winner(s, key, caseSensitive)
    decreases |s|
  {
    hide Ascending, CompareStrings;
    if |s| > 1 && !Ascending(s, key, caseSensitive) {
      WinnerIsFirst(s[..(|s| + 1) / 2], key, caseSensitive);
      WinnerIsFirst(s[(|s| + 1) / 2..], key, caseSensitive);
    }
  }

  /** Nothing is in front of the winner. */
  lemma WinnerIsLeast<T>(s: seq<T>, key: T -> string, x: T)
    requires NulFreeKeys(s, key) && x in s
    ensures Winner(s, key, false) in s && CompareStrings(key(Winner(s, key, false)), key(x), false) <= 0
  {
    hide CompareStrings, NulFreeKeys, Sort, Winner;
    WinnerIsFirst(s, key, false);
    SortOrders(s, key);
    SortElements(s, key, false);
    var r := Sort(s, key, false);
    assert x in r && r[0] in r;
    var i :| 0 <= i < |r| && r[i] == x;
    CompareAntisymmetric(key(x), key(x), false);
  }

  /** The first element is strictly in front of all others. */
  ghost predicate Leads<T>(s: seq<T>, key: T -> string) {
    forall i :: 0 < i < |s| ==> CompareStrings(key(s[0]), key(s[i]), false) < 0
  }

  /** The case-insensitive sort leaves the first element in front exactly when it leads. */
  lemma {:induction false} FirstStays<T>(s: seq<T>, key: T -> string)
    requires s != [] && NulFreeKeys(s, key) && forall i :: 0 < i < |s| ==> s[i] != s[0]
    ensures Winner(s, key, false) == s[0] <==> Leads(s, key)
    decreases |s|
  {
    hide CompareStrings, NulFreeKeys, Sort, Winner, Ascending;
    var x := s[0];
    if |s| <= 1 || Ascending(s, key, false) {
      AscendingLeads(s, key);
    } else if Leads(s, key) {
      WinnerIsLeast(s, key, x);
      LeaderAlone(s, key, Winner(s, key, false));
    } else {
      var a, b := s[..(|s| + 1) / 2], s[(|s| + 1) / 2..];
      assert forall i :: 0 < i < |a| ==> a[i] == s[i];
      assert forall i :: 0 <= i < |b| ==> b[i] == s[|a| + i];
      SliceKeeps(s, |a|, key);
      WinnerUnfolds(s, key);
      FirstStays(a, key);
      WinnerIsLeast(a, key, a[0]);
      WinnerIsLeast(b, key, b[0]);
      if Winner(s, key, false) == x {
        assert Winner(a, key, false) == x && Leads(a, key);
        LeadsBoth(s, a, b, key);
      }
    }
  }

  lemma WinnerUnfolds<T>(s: seq<T>, key: T -> string)
    requires |s| > 1 && !Ascending(s, key, false)
    ensures var a, b := Winner(s[..(|s| + 1) / 2], key, false), Winner(s[(|s| + 1) / 2..], key, false);
      Winner(s, key, false) == if CompareStrings(key(a), key(b), false) < 0 then a else b
  {
  }

  lemma AscendingLeads<T>(s: seq<T>, key: T -> string)
    requires s != [] && NulFreeKeys(s, key) && (|s| <= 1 || Ascending(s, key, false))
    ensures Leads(s, key) && Winner(s, key, false) == s[0]
  {
    hide CompareStrings, NulFreeKeys;
    forall i | 0 < i < |s| ensures CompareStrings(key(s[0]), key(s[i]), false) < 0 {
      AscendingOrders(s, key, false, 0, i);
    }
  }

  lemma LeaderAlone<T>(s: seq<T>, key: T -> string, w: T)
    requires Leads(s, key) && w in s && CompareStrings(key(w), key(s[0]), false) <= 0
    ensures w == s[0]
  {
    hide CompareStrings;
    var i :| 0 <= i < |s| && s[i] == w;
    CompareAntisymmetric(key(s[0]), key(w), false);
  }

  lemma LeadsBoth<T>(s: seq<T>, a: seq<T>, b: seq<T>, key: T -> string)
    requires s == a + b && a != [] && b != [] && NulFreeKeys(s, key) && NulFreeKeys(b, key) && Leads(a, key)
    requires CompareStrings(key(s[0]), key(Winner(b, key, false)), false) < 0
    ensures Leads(s, key)
  {
    hide CompareStrings, Winner;
    forall i | 0 < i < |s| ensures CompareStrings(key(s[0]), key(s[i]), false) < 0 {
      if i < |a| {
        assert s[i] == a[i];
      } else {
        var y := b[i - |a|];
        WinnerIsLeast(b, key, y);
        NulFreeOf(b, y, key);
        NulFreeOf(b, Winner(b, key, false), key);
        CompareTransitive(key(s[0]), key(Winner(b, key, false)), key(y), false);
      }
    }
  }

  // ---------- when the flag makes a difference ----------

  /** Both comparisons put every two keys in the same order. */
  ghost predicate AgreeingKeys<T>(s: seq<T>, key: T -> string) {
    NulFreeKeys(s, key) && forall x, y :: x in s && y in s ==> Agree(key(x), key(y))
  }

  /** Where the orders agree on all keys the flag makes no difference. */
  lemma {:induction false} SortIgnoresFlag<T>(s: seq<T>, key: T -> string)
    requires AgreeingKeys(s, key)
    ensures Sort(s, key, true) == Sort(s, key, false)
    decreases |s|
  {
    hide AgreeingKeys, Ascending, Merge;
    AscendingEither(s, key);
    if |s| > 1 && !Ascending(s, key, false) {
      var m := (|s| + 1) / 2;
      AgreeingSlices(s, m, key);
      SortIgnoresFlag(s[..m], key);
      SortIgnoresFlag(s[m..], key);
    }
  }

  lemma AscendingEither<T>(s: seq<T>, key: T -> string)
    requires AgreeingKeys(s, key)
    ensures Ascending(s, key, true) <==> Ascending(s, key, false)
  {
    hide CompareStrings;
    forall i | 0 <= i < |s| - 1
      ensures CompareStrings(key(s[i]), key(s[i + 1]), true) < 0 <==> CompareStrings(key(s[i]), key(s[i + 1]), false) < 0
    {
      assert s[i] in s && s[i + 1] in s;
    }
  }

  lemma AgreeingSlices<T>(s: seq<T>, m: nat, key: T -> string)
    requires m <= |s| && AgreeingKeys(s, key)
    ensures AgreeingKeys(s[..m], key) && AgreeingKeys(s[m..], key)
  {
    hide Agree, NulFree;
    assert forall x :: x in s[..m] || x in s[m..] ==> x in s;
  }

  /** No two keys are in opposite orders. */
  ghost predicate NeverAgainst<T>(s: seq<T>, key: T -> string) {
    forall x, y :: x in s && y in s && CompareStrings(key(x), key(y), false) != 0 ==> Agree(key(x), key(y))
  }

  /** No two different keys are equal up to case. */
  ghost predicate NoTies<T>(s: seq<T>, key: T -> string) {
    forall x, y :: x in s && y in s && CompareStrings(key(x), key(y), false) == 0 ==> CompareStrings(key(x), key(y), true) == 0
  }

  /** The keys that the case-sensitive sort gets right in every arrangement. */
  ghost predicate SortsRight<T>(s: seq<T>, key: T -> string) {
    NeverAgainst(s, key) && (|s| <= 2 || NoTies(s, key))
  }

  /**
   * The case-sensitive sort merges case-insensitively: it puts every arrangement in the order of strcmp exactly when
   * the two orders never disagree and, from three keys on, no two different keys are equal up to case.
   */
  lemma {:induction false} CaseSensitiveSortIff<T>(s: seq<T>, key: T -> string)
    requires NulFreeKeys(s, key)
    ensures (forall t: seq<T> :: multiset(t) == multiset(s) ==> Ordered(Sort(t, key, true), key, true)) <==> SortsRight(s, key)
  {
    if SortsRight(s, key) {
      forall t: seq<T> | multiset(t) == multiset(s) ensures Ordered(Sort(t, key, true), key, true) {
        SortedRight(s, t, key);
      }
    } else if !NeverAgainst(s, key) {
      var x, y :| x in s && y in s && CompareStrings(key(x), key(y), false) != 0 && !Agree(key(x), key(y));
      if CompareStrings(key(x), key(y), false) < 0 {
        SortedAgainst(s, x, y, key);
      } else {
        CompareAntisymmetric(key(x), key(y), false);
        CompareAntisymmetric(key(x), key(y), true);
        SortedAgainst(s, y, x, key);
      }
    } else {
      var x, y :| x in s && y in s && CompareStrings(key(x), key(y), false) == 0 && CompareStrings(key(x), key(y), true) != 0;
      CompareAntisymmetric(key(x), key(y), false);
      CompareAntisymmetric(key(x), key(y), true);
      if CompareStrings(key(x), key(y), true) < 0 { TieTurned(s, x, y, key); } else { TieTurned(s, y, x, key); }
    }
  }

  ghost predicate Among<T>(s: seq<T>, t: seq<T>) {
    forall x :: x in s ==> x in t
  }

  lemma SameElements<T>(s: seq<T>, t: seq<T>)
    requires multiset(s) == multiset(t)
    ensures |s| == |t| && Among(s, t) && Among(t, s)
  {
    assert |multiset(s)| == |multiset(t)|;
    forall x ensures x in s <==> x in t {
      assert x in s <==> x in multiset(s);
      assert x in t <==> x in multiset(t);
    }
  }

  lemma SortElements<T>(s: seq<T>, key: T -> string, caseSensitive: bool)
    ensures Among(Sort(s, key, caseSensitive), s) && Among(s, Sort(s, key, caseSensitive))
  {
    SortPermutes(s, key, caseSensitive);
    SameElements(Sort(s, key, caseSensitive), s);
  }

  lemma NulFreeIn<T>(s: seq<T>, t: seq<T>, key: T -> string)
    requires NulFreeKeys(s, key) && Among(t, s)
    ensures NulFreeKeys(t, key)
  {
    forall i | 0 <= i < |t| ensures NulFree(key(t[i])) { assert t[i] in s; }
  }

  lemma SliceKeeps<T>(s: seq<T>, m: nat, key: T -> string)
    requires m <= |s| && NulFreeKeys(s, key)
    ensures NulFreeKeys(s[..m], key) && NulFreeKeys(s[m..], key)
    ensures Ordered(s, key, false) ==> Ordered(s[..m], key, false) && Ordered(s[m..], key, false)
    ensures NeverAgainst(s, key) ==> NeverAgainst(s[..m], key) && NeverAgainst(s[m..], key)
  {
    hide CompareStrings, NulFree, Agree;
    assert forall x :: x in s[..m] || x in s[m..] ==> x in s;
  }

  lemma SortKeepsNulFree<T>(s: seq<T>, key: T -> string, caseSensitive: bool)
    requires NulFreeKeys(s, key)
    ensures NulFreeKeys(Sort(s, key, caseSensitive), key)
  {
    hide NulFreeKeys, Sort;
    SortElements(s, key, caseSensitive);
    NulFreeIn(s, Sort(s, key, caseSensitive), key);
  }

  lemma HalvesMerge<T>(a: seq<T>, b: seq<T>, key: T -> string)
    requires NulFreeKeys(a, key) && NulFreeKeys(b, key)
    requires Ordered(Sort(a, key, true), key, false) && Ordered(Sort(b, key, true), key, false)
    ensures Ordered(Merge(Sort(a, key, true), Sort(b, key, true), key), key, false)
  {
    hide NulFreeKeys, Sort, Ordered, Merge;
    SortKeepsNulFree(a, key, true);
    SortKeepsNulFree(b, key, true);
    MergeOrders(Sort(a, key, true), Sort(b, key, true), key);
  }

  /** What is ordered up to case stays so, whichever way it is sorted. */
  lemma {:induction false} FoldedOrderStays<T>(s: seq<T>, key: T -> string)
    requires NulFreeKeys(s, key) && Ordered(s, key, false)
    ensures Ordered(Sort(s, key, true), key, false)
    decreases |s|
  {
    hide NulFreeKeys, Ordered, Ascending, Merge;
    if |s| > 1 && !Ascending(s, key, true) {
      var m := (|s| + 1) / 2;
      SliceKeeps(s, m, key);
      FoldedOrderStays(s[..m], key);
      FoldedOrderStays(s[m..], key);
      HalvesMerge(s[..m], s[m..], key);
    }
  }

  /** Where the orders never disagree, the case-sensitive sort orders up to case. */
  lemma {:induction false} FoldedOrderComes<T>(s: seq<T>, key: T -> string)
    requires NulFreeKeys(s, key) && NeverAgainst(s, key)
    ensures Ordered(Sort(s, key, true), key, false)
    decreases |s|
  {
    hide NulFreeKeys, Ordered, NeverAgainst, Ascending, Merge;
    if |s| <= 1 {
      OneOrdered(s, key);
    } else if Ascending(s, key, true) {
      AscendingFolds(s, key);
    } else {
      var m := (|s| + 1) / 2;
      SliceKeeps(s, m, key);
      FoldedOrderComes(s[..m], key);
      FoldedOrderComes(s[m..], key);
      HalvesMerge(s[..m], s[m..], key);
    }
  }

  lemma OneOrdered<T>(s: seq<T>, key: T -> string)
    requires |s| <= 1
    ensures Ordered(s, key, false)
  {
  }

  lemma AscendingFolds<T>(s: seq<T>, key: T -> string)
    requires NulFreeKeys(s, key) && NeverAgainst(s, key) && Ascending(s, key, true)
    ensures Ordered(s, key, false)
  {
    hide NulFreeKeys, Ascending, CompareStrings;
    forall i, k | 0 <= i < k < |s| ensures CompareStrings(key(s[i]), key(s[k]), false) <= 0 {
      AscendingOrders(s, key, true, i, k);
      assert s[i] in s && s[k] in s;
    }
  }

  lemma SortedRight<T>(s: seq<T>, t: seq<T>, key: T -> string)
    requires NulFreeKeys(s, key) && SortsRight(s, key) && multiset(t) == multiset(s)
    ensures Ordered(Sort(t, key, true), key, true)
  {
    hide NulFreeKeys, Ordered, NeverAgainst, NoTies, Sort;
    SameElements(t, s);
    NulFreeIn(s, t, key);
    NeverAgainstIn(s, t, key);
    if |s| <= 2 {
      SortedPair(t, key);
    } else {
      FoldedOrderComes(t, key);
      SortElements(t, key, true);
      OrderedWithoutTies(s, Sort(t, key, true), key);
    }
  }

  lemma NeverAgainstIn<T>(s: seq<T>, t: seq<T>, key: T -> string)
    requires NeverAgainst(s, key) && Among(t, s)
    ensures NeverAgainst(t, key)
  {
    hide CompareStrings, Agree;
  }

  lemma OrderedWithoutTies<T>(s: seq<T>, r: seq<T>, key: T -> string)
    requires NeverAgainst(s, key) && NoTies(s, key) && Among(r, s) && Ordered(r, key, false)
    ensures Ordered(r, key, true)
  {
    hide CompareStrings;
    forall i, k | 0 <= i < k < |r| ensures CompareStrings(key(r[i]), key(r[k]), true) <= 0 {
      assert r[i] in r && r[k] in r;
    }
  }

  lemma SortedPair<T>(t: seq<T>, key: T -> string)
    requires |t| <= 2 && NeverAgainst(t, key)
    ensures Ordered(Sort(t, key, true), key, true)
  {
    hide CompareStrings, Agree;
    if |t| == 2 && !Ascending(t, key, true) {
      var x, y := t[0], t[1];
      PairAgainst(key(x), key(y));
      assert x in t && y in t;
      assert t[..1] == [x] && t[1..] == [y];
      CompareAntisymmetric(key(x), key(y), true);
      assert Merge([x], [y], key) == [y] + Merge([x], [y][1..], key);
      assert Sort(t, key, true) == [y, x];
    }
  }

  lemma PairAgainst(x: string, y: string)
    requires CompareStrings(x, y, false) != 0 ==> Agree(x, y)
    requires CompareStrings(x, y, true) >= 0
    ensures CompareStrings(x, y, false) >= 0
  {
  }

  /** Two keys in opposite orders: the arrangement that is ordered up to case shows it. */
  lemma SortedAgainst<T>(s: seq<T>, x: T, y: T, key: T -> string)
    requires NulFreeKeys(s, key) && x in s && y in s
    requires CompareStrings(key(x), key(y), false) < 0 && !Agree(key(x), key(y))
    ensures exists t: seq<T> :: multiset(t) == multiset(s) && !Ordered(Sort(t, key, true), key, true)
  {
    hide CompareStrings, Sort, Ordered, NulFreeKeys;
    SortOrders(s, key);
    SortPermutes(s, key, false);
    SortElements(s, key, false);
    var t := Sort(s, key, false);
    SortKeepsNulFree(s, key, false);
    FoldedOrderStays(t, key);
    SortElements(t, key, true);
    SortKeepsNulFree(t, key, true);
    assert x in Sort(t, key, true) && y in Sort(t, key, true);
    Opposite(x, y, Sort(t, key, true), key);
  }

  lemma Opposite<T>(x: T, y: T, r: seq<T>, key: T -> string)
    requires x in r && y in r && Ordered(r, key, false) && NulFreeKeys(r, key)
    requires CompareStrings(key(x), key(y), false) < 0 && !Agree(key(x), key(y))
    ensures !Ordered(r, key, true)
  {
    hide CompareStrings;
    var i :| 0 <= i < |r| && r[i] == x;
    var k :| 0 <= k < |r| && r[k] == y;
    CompareZero(key(x), key(y), true);
    CompareAntisymmetric(key(x), key(y), false);
    CompareAntisymmetric(key(x), key(x), false);
    assert i < k;
    assert CompareStrings(key(r[i]), key(r[k]), true) > 0;
  }

  /** Merging lets the key of the second list pass an equal one of the first. */
  lemma {:induction false} MergeTie<T>(a: seq<T>, b: seq<T>, x: T, y: T, key: T -> string) returns (i: nat, k: nat)
    requires NulFreeKeys(a, key) && NulFreeKeys(b, key) && Ordered(a, key, false) && Ordered(b, key, false)
    requires NulFree(key(x)) && x in a && y in b && CompareStrings(key(x), key(y), false) == 0
    ensures i < k < |Merge(a, b, key)| && Merge(a, b, key)[i] == y && Merge(a, b, key)[k] == x
  {
    hide CompareStrings, Ordered, NulFreeKeys, Merge;
    MergeUnfolds(a, b, key);
    if CompareStrings(key(a[0]), key(b[0]), false) < 0 {
      Behind(b, x, y, key);
      RestKeeps(a, key);
      i, k := MergeTie(a[1..], b, x, y, key);
      i, k := i + 1, k + 1;
    } else if b[0] == y {
      MergePermutes(a, b[1..], key);
      assert x in multiset(a) && x in multiset(Merge(a, b[1..], key));
      k :| 0 <= k < |Merge(a, b[1..], key)| && Merge(a, b[1..], key)[k] == x;
      i, k := 0, k + 1;
    } else {
      RestKeeps(b, key);
      i, k := MergeTie(a, b[1..], x, y, key);
      i, k := i + 1, k + 1;
    }
  }

  lemma MergeUnfolds<T>(a: seq<T>, b: seq<T>, key: T -> string)
    requires a != [] && b != []
    ensures Merge(a, b, key) == if CompareStrings(key(a[0]), key(b[0]), false) < 0
      then [a[0]] + Merge(a[1..], b, key) else [b[0]] + Merge(a, b[1..], key)
  {
  }

  lemma RestKeeps<T>(s: seq<T>, key: T -> string)
    requires s != [] && NulFreeKeys(s, key) && Ordered(s, key, false)
    ensures NulFreeKeys(s[1..], key) && Ordered(s[1..], key, false)
  {
    SliceKeeps(s, 1, key);
  }

  /** `x` does not come in front of the first of a list that holds its like. */
  lemma Behind<T>(b: seq<T>, x: T, y: T, key: T -> string)
    requires NulFreeKeys(b, key) && Ordered(b, key, false) && NulFree(key(x))
    requires y in b && CompareStrings(key(x), key(y), false) == 0
    ensures CompareStrings(key(x), key(b[0]), false) >= 0
  {
    hide CompareStrings;
    var j :| 0 <= j < |b| && b[j] == y;
    CompareAntisymmetric(key(x), key(y), false);
    CompareAntisymmetric(key(b[0]), key(b[0]), false);
    CompareTransitive(key(b[0]), key(y), key(x), false);
    CompareAntisymmetric(key(x), key(b[0]), false);
  }

  lemma Without<T>(s: seq<T>, x: T) returns (rest: seq<T>)
    requires x in s
    ensures multiset(s) == multiset([x] + rest) && |s| == |rest| + 1
  {
    var i :| 0 <= i < |s| && s[i] == x;
    rest := s[..i] + s[i + 1..];
    assert s == s[..i] + [x] + s[i + 1..];
  }

  /** Two different keys equal up to case, and a third one: an arrangement in which the two come out the wrong way round. */
  lemma TieTurned<T>(s: seq<T>, x: T, y: T, key: T -> string)
    requires |s| > 2 && NulFreeKeys(s, key) && NeverAgainst(s, key) && x in s && y in s
    requires CompareStrings(key(x), key(y), false) == 0 && CompareStrings(key(x), key(y), true) < 0
    ensures exists t: seq<T> :: multiset(t) == multiset(s) && !Ordered(Sort(t, key, true), key, true)
  {
    hide Sort, CompareStrings, Ordered, NeverAgainst, NulFreeKeys, Merge, Ascending;
    CompareAntisymmetric(key(x), key(x), true);
    var t := Arrange(s, x, y, key);
    SameElements(t, s);
    NulFreeIn(s, t, key);
    NeverAgainstIn(s, t, key);
    SortUnfolds(t, key);
    assert t == t[..(|t| + 1) / 2] + t[(|t| + 1) / 2..];
    HalvesTurn(t[..(|t| + 1) / 2], t[(|t| + 1) / 2..], x, y, key);
  }

  lemma SortUnfolds<T>(s: seq<T>, key: T -> string)
    requires |s| > 1 && !Ascending(s, key, true)
    ensures Sort(s, key, true) == Merge(Sort(s[..(|s| + 1) / 2], key, true), Sort(s[(|s| + 1) / 2..], key, true), key)
  {
  }

  /** An arrangement with `x` in the first half and `y` in the second that does not ascend. */
  lemma Arrange<T>(s: seq<T>, x: T, y: T, key: T -> string) returns (t: seq<T>)
    requires |s| > 2 && x in s && y in s && x != y
    ensures multiset(t) == multiset(s) && |t| == |s| && !Ascending(t, key, true)
    ensures x in t[..(|t| + 1) / 2] && y in t[(|t| + 1) / 2..]
  {
    hide CompareStrings;
    var z, rest := TakeOut(s, x, y);
    CompareAntisymmetric(key(x), key(z), true);
    var front := if CompareStrings(key(x), key(z), true) >= 0 then [x, z] else [z, x];
    t := front + rest + [y];
    Halves(front, rest, y, x);
    assert t[0] == front[0] && t[1] == front[1];
    assert multiset(front) == multiset{x, z} && |multiset(t)| == |multiset(s)|;
  }

  lemma TakeOut<T>(s: seq<T>, x: T, y: T) returns (z: T, rest: seq<T>)
    requires |s| > 2 && x in s && y in s && x != y
    ensures multiset(s) == multiset{x, z} + multiset(rest) + multiset{y}
  {
    var s1 := Without(s, x);
    SameElements(s, [x] + s1);
    assert y in [x] + s1;
    var s2 := Without(s1, y);
    z, rest := s2[0], s2[1..];
    assert s2 == [z] + rest;
  }

  lemma Halves<T>(front: seq<T>, rest: seq<T>, y: T, x: T)
    requires |front| == 2 && x in front
    ensures var t := front + rest + [y];
      x in t[..(|t| + 1) / 2] && y in t[(|t| + 1) / 2..]
  {
    var t := front + rest + [y];
    var middle := (|t| + 1) / 2;
    assert t[..middle][0] == front[0] && t[..middle][1] == front[1];
    assert t[middle..][|t| - middle - 1] == y;
  }

  lemma HalvesTurn<T>(a: seq<T>, b: seq<T>, x: T, y: T, key: T -> string)
    requires NulFreeKeys(a + b, key) && NeverAgainst(a + b, key) && x in a && y in b
    requires CompareStrings(key(x), key(y), false) == 0 && CompareStrings(key(x), key(y), true) < 0
    ensures !Ordered(Merge(Sort(a, key, true), Sort(b, key, true), key), key, true)
  {
    hide Sort, CompareStrings, NeverAgainst, NulFreeKeys, Merge;
    var p, q := Sort(a, key, true), Sort(b, key, true);
    assert (a + b)[..|a|] == a && (a + b)[|a|..] == b;
    SliceKeeps(a + b, |a|, key);
    FoldedOrderComes(a, key);
    FoldedOrderComes(b, key);
    SortElements(a, key, true);
    SortElements(b, key, true);
    SortKeepsNulFree(a, key, true);
    SortKeepsNulFree(b, key, true);
    NulFreeOf(a, x, key);
    var i, k := MergeTie(p, q, x, y, key);
    CompareAntisymmetric(key(x), key(y), true);
    assert CompareStrings(key(Merge(p, q, key)[i]), key(Merge(p, q, key)[k]), true) > 0;
  }

  lemma NulFreeOf<T>(s: seq<T>, x: T, key: T -> string)
    requires NulFreeKeys(s, key) && x in s
    ensures NulFree(key(x))
  {
  }

  /** Names with which the case-sensitive sort goes wrong: mixed case, or three of which two differ in case only. */
  lemma CaseSensitiveSortMayFold()
    ensures !SortsRight(["a", "B"], (k: string) => k)
    ensures !SortsRight(["a", "A", "b"], (k: string) => k)
  {
    assert CompareStrings("a", "B", false) < 0 && CompareStrings("a", "B", true) > 0;
    assert CompareStrings("a", "A", false) == 0 && CompareStrings("a", "A", true) > 0;
    Wrong(["a", "B"], 0, 1);
    Wrong(["a", "A", "b"], 0, 1);
  }

  lemma Wrong(s: seq<string>, i: nat, k: nat)
    requires i < |s| && k < |s| && !Agree(s[i], s[k]) && (CompareStrings(s[i], s[k], false) != 0 || |s| > 2)
    requires CompareStrings(s[i], s[k], true) != 0
    ensures !SortsRight(s, (k: string) => k)
  {
    hide CompareStrings;
    var key := (k: string) => k;
    assert s[i] in s && s[k] in s && key(s[i]) == s[i] && key(s[k]) == s[k];
  }
}
