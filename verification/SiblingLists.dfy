/** Chains of siblings on the heap: the in-place merge sort and the edits of a parent's child list. */
module SiblingLists {
  import opened Basics
  import opened CStrings
  import opened Sorting

  /** A node with its name and its links; the rest of a cJSON node is not touched here. */
  class Item {
    const name: string
    var next: Item?
    var prev: Item?

    constructor (name: string)
      ensures this.name == name && next == null && prev == null
    {
      this.name, this.next, this.prev := name, null, null;
    }
  }

  function NameOf(x: Item): string { x.name }

  function Head(s: seq<Item>): Item? { if s == [] then null else s[0] }

  predicate Distinct(s: seq<Item>) {
    forall i, k :: 0 <= i < k < |s| ==> s[i] != s[k]
  }

  /** Neighbours point at each other; nothing is said about the ends. */
  ghost predicate Linked(s: seq<Item>)
    reads s
  {
    forall i :: 0 < i < |s| ==> s[i - 1].next == s[i] && s[i].prev == s[i - 1]
  }

  /** The nodes reached from the head by `next`, with correct `prev` links except perhaps at the head. */
  ghost predicate Chain(head: Item?, s: seq<Item>)
    reads s
  {
    && head == Head(s) && Distinct(s) && Linked(s)
    && (s != [] ==> s[|s| - 1].next == null)
  }

  lemma ChainRest(head: Item?, s: seq<Item>)
    requires Chain(head, s) && s != []
    ensures head != null && head == s[0] && Chain(head.next, s[1..]) && head !in s[1..]
  {
    var rest := s[1..];
    assert forall i :: 0 < i < |rest| ==> rest[i - 1] == s[i] && rest[i] == s[i + 1];
  }

  function Members(s: seq<Item>): set<Item> { set x | x in s }

  // ---------- merging ----------

  ghost predicate Apart(a: seq<Item>, b: seq<Item>) {
    forall i, k :: 0 <= i < |a| && 0 <= k < |b| ==> a[i] != b[k]
  }

  /** The merged part: its first and last node, its links, and where its nodes come from. */
  ghost predicate Merged(result: Item?, tail: Item?, done: seq<Item>)
    reads done
  {
    && result == Head(done) && Distinct(done) && Linked(done)
    && (done != [] ==> tail == done[|done| - 1])
  }

  /** Hangs the smaller node behind the merged part, or starts it. */
  method Hang(result: Item?, tail: Item?, smaller: Item, ghost done: seq<Item>) returns (head: Item)
    requires Merged(result, tail, done) && smaller !in done
    modifies if done == [] then {} else {done[|done| - 1], smaller}
    ensures Merged(head, smaller, done + [smaller])
    ensures head.prev == old(head.prev)
  {
    if result == null { return smaller; }
    tail.next := smaller;
    smaller.prev := tail;
    return result;
  }

  /** Two chains and the merged part do not share nodes, and all come from one set. */
  ghost predicate Separate(done: seq<Item>, a: seq<Item>, b: seq<Item>, all: set<Item>) {
    && Apart(done, a) && Apart(done, b) && Apart(a, b)
    && Members(done) + Members(a) + Members(b) <= all
  }

  /** Moves the first node of one chain behind the merged part. */
  method Take(result: Item?, tail: Item?, smaller: Item, other: Item?,
        ghost done: seq<Item>, ghost taken: seq<Item>, ghost kept: seq<Item>, ghost all: set<Item>)
    returns (head: Item, rest: Item?)
    requires Merged(result, tail, done) && Chain(smaller, taken) && Chain(other, kept) && Separate(done, taken, kept, all)
    modifies if done == [] then {} else {done[|done| - 1], smaller}
    ensures taken != [] && Merged(head, smaller, done + [smaller])
    ensures Chain(rest, taken[1..]) && Chain(other, kept) && Separate(done + [smaller], taken[1..], kept, all)
    ensures head == (if result == null then smaller else result) && head.prev == old(head.prev)
  {
    ChainRest(smaller, taken);
    rest := smaller.next;
    head := Hang(result, tail, smaller, done);
  }

  /** Hangs the rest of a chain behind the merged part. */
  method HangRest(result: Item, tail: Item, rest: Item, ghost done: seq<Item>, ghost left: seq<Item>)
    requires Merged(result, tail, done) && Chain(rest, left) && Apart(done, left)
    modifies tail, rest
    ensures Chain(result, done + left) && result.prev == old(result.prev)
  {
    tail.next := rest;
    rest.prev := tail;
  }

  lemma SeparateSwap(done: seq<Item>, a: seq<Item>, b: seq<Item>, all: set<Item>)
    requires Separate(done, a, b, all)
    ensures Separate(done, b, a, all)
  {
  }

  lemma MergeStep(left: seq<Item>, right: seq<Item>, done: seq<Item>)
    requires left != [] && right != []
    ensures CompareStrings(left[0].name, right[0].name, false) < 0 ==>
      done + Merge(left, right, NameOf) == (done + [left[0]]) + Merge(left[1..], right, NameOf)
    ensures !(CompareStrings(left[0].name, right[0].name, false) < 0) ==>
      done + Merge(left, right, NameOf) == (done + [right[0]]) + Merge(left, right[1..], NameOf)
  {
  }

  lemma Heads(first: Item, second: Item, left: seq<Item>, right: seq<Item>)
    requires Chain(first, left) && Chain(second, right)
    ensures left != [] && right != [] && left[0] == first && right[0] == second
  {
  }

  lemma MergedEnds(result: Item?, tail: Item?, done: seq<Item>)
    requires Merged(result, tail, done) && done != []
    ensures tail != null && tail == done[|done| - 1] && result == done[0]
  {
  }

  lemma Within(done: seq<Item>, a: seq<Item>, b: seq<Item>, all: set<Item>)
    requires Separate(done, a, b, all)
    ensures Apart(done, a) && Apart(done, b) && Apart(a, b)
    ensures forall x :: x in done || x in a || x in b ==> x in all
  {
  }

  lemma ChainEmpty(head: Item?, s: seq<Item>)
    requires Chain(head, s)
    ensures head == null <==> s == []
    ensures s != [] ==> head == s[0]
  {
  }

  lemma MergeEnds(left: seq<Item>, right: seq<Item>)
    requires left == [] || right == []
    ensures Merge(left, right, NameOf) == left + right
  {
  }

  method MergeLists(first0: Item?, second0: Item?, ghost a: seq<Item>, ghost b: seq<Item>)
    returns (result: Item?, ghost r: seq<Item>)
    requires Chain(first0, a) && Chain(second0, b) && Apart(a, b)
    modifies Members(a) + Members(b)
    ensures r == Merge(a, b, NameOf) && Chain(result, r)
    ensures result == first0 || result == second0
    ensures result != null ==> result.prev == old(result.prev)
  {
    hide Merge, Chain, Merged, Separate;
    ghost var all := Members(a) + Members(b);
    ghost var left, right, done: seq<Item> := a, b, [];
    var first, second := first0, second0;
    var tail: Item? := null;
    result := null;
    assert Merged(null, null, []) && Separate([], a, b, all) by { StartMerge(a, b, all); }
    assert [] + Merge(a, b, NameOf) == Merge(a, b, NameOf);
    while first != null && second != null
      invariant Chain(first, left) && Chain(second, right) && Merged(result, tail, done) && Separate(done, left, right, all)
      invariant done + Merge(left, right, NameOf) == Merge(a, b, NameOf)
      invariant (result == null <==> done == []) && (result != null ==> result in all)
      invariant if result == null then first == first0 && second == second0 else result == first0 || result == second0
      invariant if result == null then forall x :: x in all ==> x.prev == old(x.prev) else result.prev == old(result.prev)
      invariant result != null ==> first != null || second != null
      decreases |left| + |right|
    {
      Heads(first, second, left, right);
      assert left[0] in left && right[0] in right;
      assert done != [] ==> done[|done| - 1] in done;
      Within(done, left, right, all);
      if done != [] { MergedEnds(result, tail, done); }
      MergeStep(left, right, done);
      var diff := CompareStrings(first.name, second.name, false);
      if diff < 0 {
        var smaller := first;
        result, first := Take(result, tail, smaller, second, done, left, right, all);
        tail, done, left := smaller, done + [smaller], left[1..];
      } else {
        var smaller := second;
        SeparateSwap(done, left, right, all);
        result, second := Take(result, tail, smaller, first, done, right, left, all);
        tail, done, right := smaller, done + [smaller], right[1..];
        SeparateSwap(done, right, left, all);
      }
    }
    Within(done, left, right, all);
    ChainEmpty(first, left);
    ChainEmpty(second, right);
    assert left != [] ==> left[0] in left;
    assert right != [] ==> right[0] in right;
    assert done != [] ==> done[|done| - 1] in done;
    MergeEnds(left, right);
    r := done + (left + right);
    assert left + right == if first != null then left else right;
    if first != null {
      if result == null {
        assert r == left;
        return first, r;
      }
      MergedEnds(result, tail, done);
      HangRest(result, tail, first, done, left);
    }
    if second != null {
      if result == null {
        assert r == right;
        return second, r;
      }
      MergedEnds(result, tail, done);
      HangRest(result, tail, second, done, right);
    }
  }

  lemma StartMerge(a: seq<Item>, b: seq<Item>, all: set<Item>)
    requires Apart(a, b) && all == Members(a) + Members(b)
    ensures Merged(null, null, []) && Separate([], a, b, all)
  {
  }

  // ---------- sorting ----------

  lemma NextOf(head: Item?, s: seq<Item>, i: nat)
    requires Chain(head, s) && i < |s|
    ensures s[i].next == if i + 1 < |s| then s[i + 1] else null
  {
    if i + 1 < |s| { assert s[i + 1 - 1].next == s[i + 1]; }
  }

  /** The early exit: every name is below the next one. */
  method InOrder(list: Item, caseSensitive: bool, ghost s: seq<Item>) returns (sorted: bool)
    requires Chain(list, s)
    ensures sorted <==> Ascending(s, NameOf, caseSensitive)
  {
    var current := list;
    ghost var i := 0;
    NextOf(list, s, 0);
    while current.next != null && CompareStrings(current.name, current.next.name, caseSensitive) < 0
      invariant 0 <= i < |s| && current == s[i] && current.next == if i + 1 < |s| then s[i + 1] else null
      invariant forall k :: 0 <= k < i ==> CompareStrings(NameOf(s[k]), NameOf(s[k + 1]), caseSensitive) < 0
      decreases |s| - i
    {
      current, i := current.next, i + 1;
      NextOf(list, s, i);
    }
    sorted := current.next == null;
  }

  /** The first node of the second half: one pointer goes two steps for each step of the other. */
  method Middle(list: Item, ghost s: seq<Item>) returns (second: Item)
    requires Chain(list, s) && |s| > 1
    ensures second == s[(|s| + 1) / 2]
  {
    var slow: Item?, fast: Item? := list, list;
    ghost var i := 0;
    while fast != null
      invariant 0 <= i && fast == if 2 * i < |s| then s[2 * i] else null
      invariant i <= (|s| + 1) / 2 && slow == s[i]
      decreases |s| - i
    {
      NextOf(list, s, i);
      NextOf(list, s, 2 * i);
      slow, fast := slow.next, fast.next;
      if fast != null {
        NextOf(list, s, 2 * i + 1);
        fast := fast.next;
      }
      i := i + 1;
    }
    second := slow;
  }

  /** Cutting the list in front of the second half. */
  method Split(list: Item, second: Item, ghost last: Item, ghost s: seq<Item>, ghost middle: nat)
    requires Chain(list, s) && 0 < middle < |s| && second == s[middle] && last == s[middle - 1]
    modifies last`next
    ensures Chain(list, s[..middle]) && Chain(second, s[middle..])
  {
    assert s[middle].prev == s[middle - 1];
    if second.prev != null { second.prev.next := null; }
  }

  lemma Parts(s: seq<Item>, middle: nat)
    requires Distinct(s) && middle <= |s|
    ensures Apart(s[..middle], s[middle..])
    ensures Members(s[..middle]) <= Members(s) && Members(s[middle..]) <= Members(s)
  {
  }

  lemma ChainDistinct(head: Item?, s: seq<Item>)
    requires Chain(head, s)
    ensures Distinct(s)
  {
  }

  lemma SortUnfolds(s: seq<Item>, caseSensitive: bool)
    ensures |s| <= 1 || Ascending(s, NameOf, caseSensitive) ==> Sort(s, NameOf, caseSensitive) == s
    ensures !(|s| <= 1 || Ascending(s, NameOf, caseSensitive)) ==>
      Sort(s, NameOf, caseSensitive) == Merge(Sort(s[..(|s| + 1) / 2], NameOf, caseSensitive),
                                              Sort(s[(|s| + 1) / 2..], NameOf, caseSensitive), NameOf)
  {
  }

  lemma SameMembers(a: seq<Item>, b: seq<Item>)
    requires multiset(a) == multiset(b)
    ensures Members(a) == Members(b)
  {
    forall x ensures x in a <==> x in b {
      assert x in a <==> x in multiset(a);
      assert x in b <==> x in multiset(b);
    }
  }

  lemma SortedMembers(s: seq<Item>, caseSensitive: bool)
    ensures Members(Sort(s, NameOf, caseSensitive)) == Members(s)
  {
    SortPermutes(s, NameOf, caseSensitive);
    SameMembers(s, Sort(s, NameOf, caseSensitive));
  }

  lemma ApartMembers(a: seq<Item>, b: seq<Item>)
    ensures Apart(a, b) <==> Members(a) !! Members(b)
  {
    if Members(a) !! Members(b) {
      forall i, k | 0 <= i < |a| && 0 <= k < |b| ensures a[i] != b[k] {
        assert a[i] in Members(a) && b[k] in Members(b);
      }
    }
  }

  /**
   * sort_list: the nodes are the ones of the list, in the order the specification gives them;
   * the prev link of the new head is left as it was.
   */
  method SortList(list: Item?, caseSensitive: bool, ghost s: seq<Item>) returns (result: Item?, ghost r: seq<Item>)
    requires Chain(list, s)
    modifies Members(s)
    ensures r == Sort(s, NameOf, caseSensitive) && Chain(result, r)
    ensures result != null ==> result.prev == old(result.prev)
    decreases |s|
  {
    hide Chain, Ascending, Distinct, Sort;
    ChainEmpty(list, s);
    ChainDistinct(list, s);
    SortUnfolds(s, caseSensitive);
    if list != null { NextOf(list, s, 0); }
    if list == null || list.next == null { return list, s; }
    var sorted := InOrder(list, caseSensitive, s);
    if sorted { return list, s; }
    var second := Middle(list, s);
    ghost var middle := (|s| + 1) / 2;
    ghost var a, b := s[..middle], s[middle..];
    Split(list, second, s[middle - 1], s, middle);
    Parts(s, middle);
    SortedMembers(a, caseSensitive);
    SortedMembers(b, caseSensitive);
    ApartMembers(a, b);
    var first: Item?, rest: Item?;
    first, a := SortList(list, caseSensitive, a);
    ChainEmpty(first, a);
    rest, b := SortList(second, caseSensitive, b);
    ChainEmpty(rest, b);
    assert first == a[0] && rest == b[0] && first in Members(a) && rest in Members(b);
    ApartMembers(a, b);
    result, r := MergeLists(first, rest, a, b);
  }

  // ---------- a parent and its children ----------

  class Parent {
    var child: Item?

    constructor ()
      ensures Holds([])
    {
      child := null;
    }

    /** The children, in order; the first one has no predecessor. */
    ghost predicate Holds(s: seq<Item>)
      reads this, s
    {
      Chain(child, s) && (child != null ==> child.prev == null)
    }

    /** Sorting can leave the first child with a predecessor, which is one of the others then. */
    ghost predicate Loose(s: seq<Item>)
      reads this, s
    {
      Chain(child, s) && (s != [] ==> s[0].prev == null || s[0].prev in s[1..])
    }

    method Add(item: Item, ghost s: seq<Item>)
      requires Chain(child, s) && item !in s && item.next == null && item.prev == null
      modifies this, Members(s), item
      ensures Chain(child, s + [item]) && (s != [] ==> child.prev == old(s[0].prev))
      ensures old(Holds(s)) ==> Holds(s + [item])
    {
      if child == null {
        child := item;
      } else {
        var last := Last(child, s);
        assert last in Members(s);
        last.next := item;
        item.prev := last;
      }
    }

    method Last(first: Item, ghost s: seq<Item>) returns (last: Item)
      requires Chain(first, s)
      ensures s != [] && last == s[|s| - 1]
    {
      last := first;
      ghost var i := 0;
      NextOf(first, s, 0);
      while last.next != null
        invariant 0 <= i < |s| && last == s[i] && last.next == if i + 1 < |s| then s[i + 1] else null
        decreases |s| - i
      {
        last, i := last.next, i + 1;
        NextOf(first, s, i);
      }
    }

    /** The child at a position, or null behind the end; and how many steps were left then. */
    method Find(which: nat, ghost s: seq<Item>) returns (c: Item?, left: nat)
      requires Chain(child, s)
      ensures c == if which < |s| then s[which] else null
      ensures left == if which < |s| then 0 else which - |s|
    {
      c, left := child, which;
      ghost var i := 0;
      while c != null && left > 0
        invariant 0 <= i <= |s| && c == (if i < |s| then s[i] else null) && left == which - i
        decreases left
      {
        NextOf(child, s, i);
        c, left, i := c.next, left - 1, i + 1;
      }
    }

    /** detach_item_from_array. */
    method Detach(which: nat, ghost s: seq<Item>) returns (c: Item?)
      requires Chain(child, s) && (which == 0 ==> Loose(s))
      modifies this, Members(s)
      ensures which >= |s| ==> c == null && unchanged(this, Members(s))
      ensures which < |s| ==> c == s[which] && c.next == null && c.prev == null
      ensures which < |s| ==> (Chain(child, s[..which] + s[which + 1..]) <==> which > 0 || old(s[0].prev) == null)
      ensures which < |s| && old(Holds(s)) ==> Holds(s[..which] + s[which + 1..])
    {
      var left: nat;
      c, left := Find(which, s);
      if c != null { Unlink(c, s, which); }
    }

    /**
     * Links the neighbours of a child to each other; the same steps as cJSON_DetachItemViaPointer. The rest is a list
     * again exactly if the child is not the first one or has no predecessor. Otherwise that predecessor now leads back
     * to the new first child: the list has become a cycle.
     */
    method Unlink(c: Item, ghost s: seq<Item>, ghost i: nat)
      requires Chain(child, s) && i < |s| && c == s[i] && (i == 0 ==> Loose(s))
      modifies this, Members(s)
      ensures c.next == null && c.prev == null
      ensures Chain(child, s[..i] + s[i + 1..]) <==> i > 0 || old(s[0].prev) == null
      ensures i > 0 ==> child.prev == old(s[0].prev)
      ensures i == 0 && old(s[0].prev) != null ==> |s| > 1 && child == s[1] && old(s[0].prev).next == s[1]
      ensures old(Holds(s)) ==> Holds(s[..i] + s[i + 1..])
    {
      NextOf(child, s, i);
      assert i > 0 ==> c.prev == s[i - 1] && s[i - 1] in Members(s);
      assert i + 1 < |s| ==> s[i + 1] in Members(s);
      assert c in Members(s);
      ghost var p := c.prev;
      assert i == 0 && p != null ==> p in s[1..] && p in Members(s);
      if c.prev != null { c.prev.next := c.next; }
      if c.next != null { c.next.prev := c.prev; }
      if c == child { child := c.next; }
      c.prev := null;
      c.next := null;
      RestAt(s, i);
      if i == 0 && p != null { NotChained(child, s[1..], p); assert s[..0] + s[1..] == s[1..]; }
    }

    /** insert_item_in_array: false when the position lies behind the end. */
    method Insert(which: nat, item: Item, ghost s: seq<Item>) returns (ok: bool)
      requires Holds(s) && item !in s && item.next == null && item.prev == null
      modifies this, Members(s), item
      ensures ok <==> which <= |s|
      ensures Holds(if ok then s[..which] + [item] + s[which..] else s)
    {
      var c, left := Find(which, s);
      if left > 0 { return false; }
      if c == null {
        Add(item, s);
        assert s + [item] == s[..which] + [item] + s[which..];
      } else {
        LinkBefore(c, item, s, which);
      }
      return true;
    }

    method LinkBefore(c: Item, item: Item, ghost s: seq<Item>, ghost i: nat)
      requires Holds(s) && i < |s| && c == s[i] && item !in s
      modifies this, Members(s), item
      ensures Holds(s[..i] + [item] + s[i..])
    {
      assert i > 0 ==> c.prev == s[i - 1] && s[i - 1] in Members(s);
      assert c in Members(s);
      item.next := c;
      item.prev := c.prev;
      c.prev := item;
      if c == child { child := item; } else { item.prev.next := item; }
      WithAt(s, i, item);
    }

    /** cJSON_ReplaceItemViaPointer; it goes wrong in the same case. */
    method Replace(c: Item, item: Item, ghost s: seq<Item>, ghost i: nat)
      requires Chain(child, s) && i < |s| && c == s[i] && (item !in s || item == c) && (i == 0 ==> Loose(s))
      modifies this, Members(s), item
      ensures Chain(child, s[i := item]) <==> item == c || i > 0 || old(s[0].prev) == null
      ensures old(Holds(s)) ==> Holds(s[i := item])
      ensures item != c ==> c.next == null && c.prev == null
    {
      if item == c {
        assert s[i := item] == s;
        return;
      }
      NextOf(child, s, i);
      assert i > 0 ==> c.prev == s[i - 1] && s[i - 1] in Members(s);
      assert i + 1 < |s| ==> s[i + 1] in Members(s) && s[i + 1].prev == c;
      assert c in Members(s);
      ghost var p := c.prev;
      assert i == 0 && p != null ==> p in s[1..] && p in Members(s);
      item.next := c.next;
      item.prev := c.prev;
      if item.next != null { item.next.prev := item; }
      if item.prev != null { item.prev.next := item; }
      if child == c { child := item; }
      c.next := null;
      c.prev := null;
      if i == 0 && p != null {
        OtherStays(s, item, p);
        NotChained(child, s[0 := item], p);
      }
    }

    /**
     * sort_object: the children are sorted, but the new first child keeps its old predecessor. So the list stays
     * clean exactly when it was and the first child wins the tournament of the merge sort.
     */
    method SortChildren(caseSensitive: bool, ghost s: seq<Item>)
      requires Loose(s)
      modifies this, Members(s)
      ensures Loose(Sort(s, NameOf, caseSensitive))
      ensures Holds(Sort(s, NameOf, caseSensitive))
         <==> s == [] || (Winner(s, NameOf, caseSensitive) == s[0] && old(s[0].prev) == null)
    {
      ghost var r: seq<Item>;
      SortedMembers(s, caseSensitive);
      child, r := SortList(child, caseSensitive, s);
      if child != null {
        ChainEmpty(child, r);
        WinnerIsFirst(s, NameOf, caseSensitive);
        assert child in Members(r);
        ghost var k :| 0 <= k < |s| && s[k] == child;
        assert k > 0 ==> old(s[k].prev) == s[k - 1];
        OthersFollow(s, r, k);
      }
    }
  }

  /** A node of a list whose successor is the first node, or one that is none of the list: then it is no such list. */
  lemma NotChained(head: Item?, s: seq<Item>, p: Item)
    requires s != [] && p in s && p.next == s[0]
    ensures !Chain(head, s)
  {
    var k :| 0 <= k < |s| && s[k] == p;
    if Chain(head, s) { NextOf(head, s, k); }
  }

  lemma OtherStays(s: seq<Item>, item: Item, p: Item)
    requires s != [] && p in s[1..]
    ensures p in s[0 := item]
  {
    var k :| 0 <= k < |s| - 1 && s[1..][k] == p;
    assert s[0 := item][k + 1] == p;
  }

  /** Sorting keeps the others among the others, when the first one moves. */
  lemma OthersFollow(s: seq<Item>, r: seq<Item>, k: nat)
    requires Members(s) == Members(r) && Distinct(s) && Distinct(r) && k < |s| && r != [] && r[0] == s[k]
    ensures forall i :: 0 <= i < |s| && i != k ==> s[i] in r[1..]
  {
    forall i | 0 <= i < |s| && i != k ensures s[i] in r[1..] {
      assert s[i] in Members(r) && s[i] != r[0];
      var j :| 0 <= j < |r| && r[j] == s[i];
      assert r[1..][j - 1] == s[i];
    }
  }

  /** Two children out of order, sorted, and the first one taken out: the other one has become its own successor. */
  method SortThenTakeFirst(p: Parent, a: Item, b: Item)
    requires a.name == "a" && b.name == "b" && p.Holds([b, a])
    modifies p, a, b
    ensures p.child == b && b.next == b
  {
    SortsTwo(a, b);
    assert Members([b, a]) == {a, b} == Members([a, b]);
    p.SortChildren(false, [b, a]);
    assert [a, b][1..] == [b] && a.prev == b;
    p.Unlink(a, [a, b], 0);
  }

  lemma SortsTwo(a: Item, b: Item)
    requires a.name == "a" && b.name == "b"
    ensures Sort([b, a], NameOf, false) == [a, b] && Winner([b, a], NameOf, false) == a
  {
    assert CompareStrings("b", "a", false) > 0;
    assert NameOf(b) == "b" && NameOf(a) == "a";
    assert [b, a][..1] == [b] && [b, a][1..] == [a];
    assert Merge([b], [a], NameOf) == [a] + Merge([b], [a][1..], NameOf) == [a, b];
  }

  /** Without the flag that is so exactly when the first name is strictly in front of all others. */
  lemma CleanWhenFirstLeads(s: seq<Item>)
    requires s != [] && Distinct(s) && NulFreeKeys(s, NameOf)
    ensures Winner(s, NameOf, false) == s[0] <==> forall i :: 0 < i < |s| ==> CompareStrings(s[0].name, s[i].name, false) < 0
  {
    FirstStays(s, NameOf);
  }

  lemma RestAt(s: seq<Item>, i: nat)
    requires i < |s|
    ensures var rest := s[..i] + s[i + 1..];
      forall k :: 0 <= k < |rest| ==> rest[k] == if k < i then s[k] else s[k + 1]
  {
  }

  lemma WithAt(s: seq<Item>, i: nat, item: Item)
    requires i <= |s|
    ensures var more := s[..i] + [item] + s[i..];
      forall k :: 0 <= k < |more| ==> more[k] == if k < i then s[k] else if k == i then item else s[k - 1]
  {
  }
}
