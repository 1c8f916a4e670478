/** NUL-terminated C strings, modelled as sequences of characters without the terminator. */
module CStrings {
  import opened Basics

  /** tolower of the C locale. */
  function ToLower(c: char): char {
    if 'A' <= c <= 'Z' then c - 'A' + 'a' else c
  }

  /** Exactly the capitals are folded, each to its small letter. */
  lemma FoldsCapitals(c: char, k: nat)
    requires k < 26
    ensures |CAPITALS| == |SMALL_LETTERS| == 26 && ToLower(CAPITALS[k]) == SMALL_LETTERS[k]
    ensures c !in CAPITALS ==> ToLower(c) == c
  {
    hide CAPITALS, SMALL_LETTERS;
    Letters(k);
    if 'A' <= c <= 'Z' {
      Letters(c as nat - 65);
      assert c == CAPITALS[c as nat - 65];
    }
  }

  predicate IsLower(s: string) {
    forall i :: 0 <= i < |s| ==> ToLower(s[i]) == s[i]
  }

  predicate NulFree(s: string) {
    forall i :: 0 <= i < |s| ==> s[i] != '\0'
  }

  /** The character a comparison loop looks at: the terminator when the string has ended. */
  function First(s: string, caseSensitive: bool): nat {
    if s == "" then 0 else (if caseSensitive then s[0] else ToLower(s[0])) as nat
  }

  /** The difference of the first characters that disagree, as strcmp and its folding variant give it. */
  function CompareStrings(a: string, b: string, caseSensitive: bool): int {
    var x, y := First(a, caseSensitive), First(b, caseSensitive);
    if x == y && a != "" && b != "" then CompareStrings(a[1..], b[1..], caseSensitive) else x - y
  }

  /** The strings agree before position `i`, and differ there or one of them has ended. */
  predicate PartAt(a: string, b: string, i: nat, caseSensitive: bool) {
    && i <= |a| && i <= |b|
    && (forall k :: 0 <= k < i ==> if caseSensitive then a[k] == b[k] else ToLower(a[k]) == ToLower(b[k]))
    && (i == |a| || i == |b| || (if caseSensitive then a[i] != b[i] else ToLower(a[i]) != ToLower(b[i])))
  }

  /** The result is the difference at that position, where the terminator counts as 0. */
  lemma {:induction false} CompareAtFirst(a: string, b: string, i: nat, caseSensitive: bool)
    requires NulFree(a) && NulFree(b) && PartAt(a, b, i, caseSensitive)
    ensures var x := if i == |a| then 0 else if caseSensitive then a[i] as int else ToLower(a[i]) as int;
      var y := if i == |b| then 0 else if caseSensitive then b[i] as int else ToLower(b[i]) as int;
      CompareStrings(a, b, caseSensitive) == x - y
    decreases i
  {
    if i > 0 { CompareAtFirst(a[1..], b[1..], i - 1, caseSensitive); }
  }

  /** The comparison loop itself. */
  method CompareLoop(a: string, b: string, caseSensitive: bool) returns (diff: int)
    ensures diff == CompareStrings(a, b, caseSensitive)
  {
    var i := 0;
    while i < |a| && i < |b| && First(a[i..], caseSensitive) == First(b[i..], caseSensitive)
      invariant i <= |a| && i <= |b|
      invariant CompareStrings(a[i..], b[i..], caseSensitive) == CompareStrings(a, b, caseSensitive)
    {
      assert a[i..][1..] == a[i + 1..] && b[i..][1..] == b[i + 1..];
      i := i + 1;
    }
    diff := First(a[i..], caseSensitive) - First(b[i..], caseSensitive);
  }

  /** Equal up to case. */
  predicate SameFolded(a: string, b: string) {
    if a == "" || b == "" then a == b else ToLower(a[0]) == ToLower(b[0]) && SameFolded(a[1..], b[1..])
  }

  lemma {:induction false} SameFoldedSelf(s: string)
    ensures SameFolded(s, s)
  {
    if s != "" { SameFoldedSelf(s[1..]); }
  }

  /** Only equal strings compare equal, up to case when folding. */
  lemma {:induction false} CompareZero(a: string, b: string, caseSensitive: bool)
    requires NulFree(a) && NulFree(b)
    ensures CompareStrings(a, b, caseSensitive) == 0 <==> if caseSensitive then a == b else SameFolded(a, b)
  {
    if a != "" && b != "" && First(a, caseSensitive) == First(b, caseSensitive) {
      CompareZero(a[1..], b[1..], caseSensitive);
      assert a == [a[0]] + a[1..] && b == [b[0]] + b[1..];
    }
  }

  /** Without upper-case letters, strings equal up to case are equal. */
  lemma {:induction false} SameFoldedLower(a: string, b: string)
    requires IsLower(a) && IsLower(b)
    ensures SameFolded(a, b) <==> a == b
  {
    if a != "" && b != "" {
      SameFoldedLower(a[1..], b[1..]);
      assert a == [a[0]] + a[1..] && b == [b[0]] + b[1..];
    }
  }

  /** What is left of a sequence of characters when it is read as a C string. */
  function CString(s: seq<char>): (t: string)
    ensures NulFree(t)
  {
    if s == [] || s[0] == '\0' then "" else [s[0]] + CString(s[1..])
  }

  lemma {:induction false} CStringOfNulFree(s: string)
    requires NulFree(s)
    ensures CString(s) == s
  {
    if s != "" { CStringOfNulFree(s[1..]); }
  }

  lemma CompareLowerZero(a: string, b: string, caseSensitive: bool)
    requires NulFree(a) && NulFree(b)
    requires caseSensitive || (IsLower(a) && IsLower(b))
    ensures CompareStrings(a, b, caseSensitive) == 0 <==> a == b
  {
    CompareZero(a, b, caseSensitive);
    if !caseSensitive { SameFoldedLower(a, b); }
  }

  lemma {:induction false} CompareAntisymmetric(a: string, b: string, caseSensitive: bool)
    ensures CompareStrings(a, b, caseSensitive) == -CompareStrings(b, a, caseSensitive)
  {
    if a != "" && b != "" {
      CompareAntisymmetric(a[1..], b[1..], caseSensitive);
    }
  }

  lemma {:induction false} CompareTransitive(a: string, b: string, c: string, caseSensitive: bool)
    requires NulFree(a) && NulFree(b) && NulFree(c)
    requires CompareStrings(a, b, caseSensitive) <= 0 && CompareStrings(b, c, caseSensitive) <= 0
    ensures CompareStrings(a, c, caseSensitive) <= 0
    ensures CompareStrings(a, b, caseSensitive) < 0 || CompareStrings(b, c, caseSensitive) < 0
            ==> CompareStrings(a, c, caseSensitive) < 0
  {
    if a != "" && b != "" && c != "" {
      if First(a, caseSensitive) == First(b, caseSensitive) == First(c, caseSensitive) {
        CompareTransitive(a[1..], b[1..], c[1..], caseSensitive);
      }
    }
  }

  /** On strings without upper-case letters the two comparisons coincide. */
  lemma {:induction false} CompareFoldsToCase(a: string, b: string)
    requires IsLower(a) && IsLower(b)
    ensures CompareStrings(a, b, false) == CompareStrings(a, b, true)
  {
    if a != "" && b != "" {
      CompareFoldsToCase(a[1..], b[1..]);
    }
  }

  /** Both comparisons put the two strings in the same order. */
  predicate Agree(a: string, b: string) {
    && (CompareStrings(a, b, true) < 0 <==> CompareStrings(a, b, false) < 0)
    && (CompareStrings(a, b, true) > 0 <==> CompareStrings(a, b, false) > 0)
  }

  lemma LowerAgrees(a: string, b: string)
    requires IsLower(a) && IsLower(b)
    ensures Agree(a, b)
  {
    CompareFoldsToCase(a, b);
  }

  lemma AgreeSymmetric(a: string, b: string)
    requires Agree(a, b)
    ensures Agree(b, a)
  {
    CompareAntisymmetric(a, b, true);
    CompareAntisymmetric(a, b, false);
  }
}
