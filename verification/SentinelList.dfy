/** The doubly linked list with two sentinels, as a sequence. */
module SentinelLists {
  class Node<V> {
    var value: V
    var prev: Node?<V>
    var next: Node?<V>

    constructor (value: V, prev: Node?<V>, next: Node?<V>)
      ensures this.value == value && this.prev == prev && this.next == next
    {
      this.value, this.prev, this.next := value, prev, next;
    }
  }

  /** Neighbours point at each other, so that a walk backward meets the nodes of a walk forward in opposite order. */
  ghost predicate Mirrored<V>(nodes: seq<Node<V>>)
    reads (set n | n in nodes)`next, (set n | n in nodes)`prev
  {
    && (forall i, k :: 0 <= i < k < |nodes| ==> nodes[i] != nodes[k])
    && (forall i :: 0 < i < |nodes| ==> nodes[i - 1].next == nodes[i] && nodes[i].prev == nodes[i - 1])
  }

  lemma Neighbours<V>(nodes: seq<Node<V>>, i: nat)
    requires Mirrored(nodes) && i < |nodes|
    ensures i + 1 < |nodes| ==> nodes[i].next == nodes[i + 1] && nodes[i + 1].prev == nodes[i]
    ensures i > 0 ==> nodes[i].prev == nodes[i - 1] && nodes[i - 1].next == nodes[i]
  {
    if i + 1 < |nodes| { assert nodes[i + 1 - 1].next == nodes[i + 1]; }
  }

  /** The nodes between the sentinels hold the elements. */
  ghost predicate Holds<V>(nodes: seq<Node<V>>, elements: seq<V>)
    reads (set n | n in nodes)`value
  {
    |nodes| == |elements| + 2 && forall i :: 0 <= i < |elements| ==> nodes[i + 1].value == elements[i]
  }

  /** Links a new node in front of one that is not the head. */
  method InsertBefore<V>(old0: Node<V>, value: V, ghost nodes: seq<Node<V>>, ghost k: nat) returns (o: Node<V>)
    requires Mirrored(nodes) && 0 < k < |nodes| && nodes[k] == old0
    modifies (set n | n in nodes)`next, (set n | n in nodes)`prev
    ensures fresh(o) && o.value == value && Mirrored(nodes[..k] + [o] + nodes[k..])
  {
    Neighbours(nodes, k);
    assert nodes[k - 1] in nodes && old0 in nodes;
    o := new Node(value, old0.prev, old0);
    assert o !in nodes;
    o.prev.next := o;
    o.next.prev := o;
    MoreAt(nodes, k, o);
  }

  lemma MoreAt<V>(nodes: seq<Node<V>>, k: nat, o: Node<V>)
    requires k <= |nodes|
    ensures var more := nodes[..k] + [o] + nodes[k..];
      forall i :: 0 <= i < |more| ==> more[i] == if i < k then nodes[i] else if i == k then o else nodes[i - 1]
  {
  }

  /** Unlinks a node that is no sentinel. */
  method Unlink<V>(o: Node<V>, ghost nodes: seq<Node<V>>, ghost k: nat)
    requires Mirrored(nodes) && 0 < k < |nodes| - 1 && nodes[k] == o
    modifies (set n | n in nodes)`next, (set n | n in nodes)`prev
    ensures Mirrored(nodes[..k] + nodes[k + 1..])
  {
    Neighbours(nodes, k);
    assert nodes[k - 1] in nodes && nodes[k + 1] in nodes;
    o.prev.next := o.next;
    o.next.prev := o.prev;
    LessAt(nodes, k);
  }

  lemma LessAt<V>(nodes: seq<Node<V>>, k: nat)
    requires k < |nodes|
    ensures var less := nodes[..k] + nodes[k + 1..];
      forall i :: 0 <= i < |less| ==> less[i] == if i < k then nodes[i] else nodes[i + 1]
  {
  }

  /** The position of the first element that is the value, or that the comparison takes for it. */
  function FindFirst<V(==)>(elements: seq<V>, value: V, comp: (V, V) -> int): (i: nat)
    ensures i <= |elements|
    ensures i < |elements| ==> Matches(elements[i], value, comp)
    ensures forall k :: 0 <= k < i ==> !Matches(elements[k], value, comp)
  {
    if elements == [] || Matches(elements[0], value, comp) then 0 else 1 + FindFirst(elements[1..], value, comp)
  }

  predicate Matches<V(==)>(element: V, value: V, comp: (V, V) -> int) {
    value == element || comp(value, element) == 0
  }

  /** The place of the first element that is the value itself or compares equal to it, the value given first. */
  lemma {:induction false} FindsFirst<V>(elements: seq<V>, value: V, comp: (V, V) -> int, i: nat)
    requires i < |elements| && (value == elements[i] || comp(value, elements[i]) == 0)
    requires forall k :: 0 <= k < i ==> value != elements[k] && comp(value, elements[k]) != 0
    ensures FindFirst(elements, value, comp) == i
  {
    if i > 0 { FindsFirst(elements[1..], value, comp, i - 1); }
  }

  lemma {:induction false} FirstIs<V>(elements: seq<V>, value: V, comp: (V, V) -> int, i: nat)
    requires i <= |elements| && (i < |elements| ==> Matches(elements[i], value, comp))
    requires forall k :: 0 <= k < i ==> !Matches(elements[k], value, comp)
    ensures FindFirst(elements, value, comp) == i
  {
    if i > 0 {
      assert !Matches(elements[0], value, comp);
      FirstIs(elements[1..], value, comp, i - 1);
    }
  }

  class Link<V(==)> {
    const head: Node<V>
    const tail: Node<V>
    var size: nat
    /** What is returned for a missing element. */
    const missing: V
    ghost var nodes: seq<Node<V>>
    ghost var elements: seq<V>

    constructor (missing: V)
      ensures Valid() && elements == [] && this.missing == missing && fresh(Repr())
    {
      this.missing, size := missing, 0;
      var t := new Node(missing, null, null);
      var h := new Node(missing, null, t);
      t.prev := h;
      tail, head := t, h;
      nodes, elements := [h, t], [];
    }

    ghost predicate Valid()
      reads this, Repr()
    {
      Mirrored(nodes) && Holds(nodes, elements) && size == |elements| && nodes[0] == head && nodes[size + 1] == tail
    }

    ghost function Repr(): set<Node<V>>
      reads this
    {
      set n | n in nodes
    }

    /** The node at a position, reached from the nearer end. */
    method GetNode(idx: nat) returns (p: Node?<V>, ghost k: nat)
      requires Valid()
      ensures p == null <==> idx >= size
      ensures p != null ==> k == idx + 1 && k < |nodes| - 1 && p == nodes[k]
    {
      k := 0;
      if idx >= size { return null, 0; }
      if idx > size / 2 {
        p := tail;
        var i := size;
        while i > idx
          invariant idx <= i <= size && p == nodes[i + 1]
        {
          Neighbours(nodes, i + 1);
          p, i := p.prev, i - 1;
        }
      } else {
        p := head;
        var i := 0;
        while i <= idx
          invariant 0 <= i <= idx + 1 && p == nodes[i]
        {
          Neighbours(nodes, i);
          p, i := p.next, i + 1;
        }
      }
      k := idx + 1;
    }

    /** Puts a new element in front of the node at `k`. */
    method Put(o: Node<V>, value: V, ghost k: nat)
      requires Valid() && 0 < k < |nodes| && nodes[k] == o
      modifies this`size, this`nodes, this`elements, Repr()`next, Repr()`prev
      ensures Valid() && elements == old(elements[..k - 1] + [value] + elements[k - 1..])
      ensures fresh(Repr() - old(Repr()))
    {
      var n := InsertBefore(o, value, nodes, k);
      MoreAt(nodes, k, n);
      MoreValues(nodes, elements, k, n);
      elements := elements[..k - 1] + [value] + elements[k - 1..];
      nodes := nodes[..k] + [n] + nodes[k..];
      size := size + 1;
    }

    /** Takes the node at `k` out. */
    method Take(o: Node<V>, ghost k: nat) returns (v: V)
      requires Valid() && 0 < k < |nodes| - 1 && nodes[k] == o
      modifies this`size, this`nodes, this`elements, Repr()`next, Repr()`prev
      ensures Valid() && v == old(elements)[k - 1] && elements == old(elements[..k - 1] + elements[k..])
      ensures Repr() <= old(Repr())
    {
      hide Mirrored, Holds;
      EnoughNodes(nodes, elements);
      assert o.value == elements[k - 1] by { ValueAt(nodes, elements, k); }
      v := o.value;
      LessValues(nodes, elements, k);
      Unlink(o, nodes, k);
      LessAt(nodes, k);
      elements := elements[..k - 1] + elements[k..];
      nodes := nodes[..k] + nodes[k + 1..];
      size := size - 1;
    }

    /** cel_link_add and cel_link_add_last. */
    method AddLast(value: V)
      requires Valid()
      modifies this`size, this`nodes, this`elements, Repr()`next, Repr()`prev
      ensures Valid() && elements == old(elements) + [value] && fresh(Repr() - old(Repr()))
    {
      ghost var before := elements;
      Put(tail, value, size + 1);
      assert before[..|before|] + [value] + before[|before|..] == before + [value];
    }

    method AddFirst(value: V)
      requires Valid()
      modifies this`size, this`nodes, this`elements, Repr()`next, Repr()`prev
      ensures Valid() && elements == [value] + old(elements) && fresh(Repr() - old(Repr()))
    {
      ghost var before := elements;
      Neighbours(nodes, 0);
      Put(head.next, value, 1);
      assert before[..0] + [value] + before[0..] == [value] + before;
    }

    /** Inserts in front of an existing position; the position behind the last element is refused. */
    method Insert(idx: nat, value: V)
      requires Valid()
      modifies this`size, this`nodes, this`elements, Repr()`next, Repr()`prev
      ensures Valid() && elements == InsertAt(old(elements), idx, value) && fresh(Repr() - old(Repr()))
    {
      var o: Node?<V>;
      ghost var k;
      o, k := GetNode(idx);
      if o != null { Put(o, value, k); }
    }

    method Remove(idx: nat) returns (v: V)
      requires Valid()
      modifies this`size, this`nodes, this`elements, Repr()`next, Repr()`prev
      ensures Valid() && elements == RemoveAt(old(elements), idx) && Repr() <= old(Repr())
      ensures v == if idx < |old(elements)| then old(elements)[idx] else missing
    {
      var o: Node?<V>;
      ghost var k;
      o, k := GetNode(idx);
      if o == null { return missing; }
      v := Take(o, k);
    }

    method RemoveFirst() returns (v: V)
      requires Valid()
      modifies this`size, this`nodes, this`elements, Repr()`next, Repr()`prev
      ensures Valid() && elements == RemoveAt(old(elements), 0) && Repr() <= old(Repr())
      ensures v == if old(elements) == [] then missing else old(elements)[0]
    {
      if size == 0 { return missing; }
      Neighbours(nodes, 0);
      v := Take(head.next, 1);
    }

    method RemoveLast() returns (v: V)
      requires Valid()
      modifies this`size, this`nodes, this`elements, Repr()`next, Repr()`prev
      ensures Valid() && Repr() <= old(Repr())
      ensures old(elements) == [] ==> v == missing && elements == []
      ensures old(elements) != [] ==> elements + [v] == old(elements)
    {
      if size == 0 { return missing; }
      ghost var before := elements;
      Neighbours(nodes, size + 1);
      v := Take(tail.prev, size);
      assert before == before[..|before| - 1] + [before[|before| - 1]];
      assert before[|before|..] == [];
    }

    /** Walks forward to the first element that matches. */
    method Search(value: V, comp: (V, V) -> int) returns (o: Node?<V>, ghost k: nat)
      requires Valid()
      ensures o == null <==> FindFirst(elements, value, comp) == |elements|
      ensures o != null ==> k == FindFirst(elements, value, comp) + 1 && k < |nodes| - 1 && o == nodes[k]
    {
      Neighbours(nodes, 0);
      var p := head.next;
      k := 1;
      while p != tail
        invariant 1 <= k <= |elements| + 1 && p == nodes[k]
        invariant forall i :: 0 <= i < k - 1 ==> !Matches(elements[i], value, comp)
        decreases |nodes| - k
      {
        assert p.value == elements[k - 1];
        if value == p.value || comp(value, p.value) == 0 {
          FirstIs(elements, value, comp, k - 1);
          return p, k;
        }
        Neighbours(nodes, k);
        p, k := p.next, k + 1;
      }
      assert k == |elements| + 1;
      FirstIs(elements, value, comp, |elements|);
      return null, k;
    }

    method RemoveObj(value: V, comp: (V, V) -> int) returns (v: V)
      requires Valid()
      modifies this`size, this`nodes, this`elements, Repr()`next, Repr()`prev
      ensures Repr() <= old(Repr()) && Valid()
      ensures var i := FindFirst(old(elements), value, comp);
        elements == RemoveAt(old(elements), i) && v == if i < |old(elements)| then old(elements)[i] else missing
    {
      var o: Node?<V>;
      ghost var k;
      o, k := Search(value, comp);
      if o == null { return missing; }
      v := Take(o, k);
    }

    method Get(idx: nat) returns (v: V)
      requires Valid()
      ensures v == if idx < |elements| then elements[idx] else missing
    {
      var o: Node?<V>;
      ghost var k;
      o, k := GetNode(idx);
      return if o == null then missing else o.value;
    }

    /** Stores a value in the node at `k`. */
    method Store(o: Node<V>, value: V, ghost k: nat) returns (v: V)
      requires Valid() && 0 < k < |nodes| - 1 && nodes[k] == o
      modifies this`elements, o`value
      ensures Valid() && v == old(elements)[k - 1] && elements == old(elements)[k - 1 := value]
    {
      assert forall i :: 0 <= i < |nodes| && i != k ==> nodes[i] != o;
      v := o.value;
      o.value := value;
      elements := elements[k - 1 := value];
    }

    method Set(idx: nat, value: V) returns (v: V)
      requires Valid()
      modifies this`elements, Repr()`value
      ensures Valid() && elements == SetAt(old(elements), idx, value)
      ensures v == if idx < |old(elements)| then old(elements)[idx] else missing
    {
      var o: Node?<V>;
      ghost var k;
      o, k := GetNode(idx);
      if o == null { return missing; }
      assert o in Repr();
      v := Store(o, value, k);
    }

    method SetObj(search: V, value: V, comp: (V, V) -> int) returns (v: V)
      requires Valid()
      modifies this`elements, Repr()`value
      ensures Valid()
      ensures var i := FindFirst(old(elements), search, comp);
        elements == SetAt(old(elements), i, value) && v == if i < |old(elements)| then old(elements)[i] else missing
    {
      var o: Node?<V>;
      ghost var k;
      o, k := Search(search, comp);
      if o == null { return missing; }
      assert o in Repr();
      v := Store(o, value, k);
    }

    /** One call acts on the elements as the sequence operation, and gives the same answer. */
    method Serve(call: Call<V>) returns (answer: Answer<V>)
      requires Valid()
      modifies this, Repr()
      ensures Valid() && (elements, answer) == Served(old(elements), call, missing)
      ensures fresh(Repr() - old(Repr()))
    {
      hide Valid, Mirrored, Holds, InsertAt, RemoveAt, SetAt;
      answer := Nothing;
      match call {
        case AddLastCall(value) => AddLast(value);
        case AddFirstCall(value) => AddFirst(value);
        case InsertCall(idx, value) => Insert(idx, value);
        case _ => answer := Fetch(call);
      }
    }

    /** The calls that give back an element. */
    method Fetch(call: Call<V>) returns (answer: Answer<V>)
      requires Valid() && !call.AddLastCall? && !call.AddFirstCall? && !call.InsertCall?
      modifies this, Repr()
      ensures Valid() && (elements, answer) == Served(old(elements), call, missing)
      ensures Repr() <= old(Repr())
    {
      hide Valid, Mirrored, Holds;
      var v: V;
      match call {
        case RemoveCall(idx) => v := Remove(idx);
        case RemoveFirstCall => v := RemoveFirst();
        case RemoveLastCall => v := RemoveLast(); LastRemoved(old(elements), elements, v, missing);
        case RemoveObjCall(value, comp) => v := RemoveObj(value, comp);
        case GetCall(idx) => v := Get(idx);
        case SetCall(idx, value) => v := Set(idx, value);
        case SetObjCall(search, value, comp) => v := SetObj(search, value, comp);
      }
      answer := Value(v);
    }

    /** A run of calls acts on the elements as the same run of sequence operations, and gives the same answers. */
    method Run(calls: seq<Call<V>>) returns (answers: seq<Answer<V>>)
      requires Valid()
      modifies this, Repr()
      ensures Valid() && (elements, answers) == ServedAll(old(elements), calls, missing)
    {
      hide Valid, Mirrored, Holds, Served;
      var i := 0;
      answers := [];
      assert calls[0..] == calls;
      NoAnswersYet(elements, calls, missing);
      while i < |calls|
        invariant 0 <= i <= |calls| && Valid() && fresh(Repr() - old(Repr()))
        invariant ServedAll(old(elements), calls, missing)
               == (ServedAll(elements, calls[i..], missing).0, answers + ServedAll(elements, calls[i..], missing).1)
        decreases |calls| - i
      {
        ghost var before := answers;
        assert calls[i..][1..] == calls[i + 1..];
        var answer := Serve(calls[i]);
        ghost var rest := ServedAll(elements, calls[i + 1..], missing).1;
        assert before + ([answer] + rest) == (before + [answer]) + rest;
        answers, i := answers + [answer], i + 1;
      }
      assert answers + [] == answers;
    }
  }

  // ---------- the sequence operations ----------

  function InsertAt<V>(s: seq<V>, i: nat, v: V): seq<V> { if i < |s| then s[..i] + [v] + s[i..] else s }

  function RemoveAt<V>(s: seq<V>, i: nat): seq<V> { if i < |s| then s[..i] + s[i + 1..] else s }

  function SetAt<V>(s: seq<V>, i: nat, v: V): seq<V> { if i < |s| then s[i := v] else s }

  datatype Call<!V> =
    | AddLastCall(value: V)
    | AddFirstCall(value: V)
    | InsertCall(idx: nat, value: V)
    | RemoveCall(idx: nat)
    | RemoveFirstCall
    | RemoveLastCall
    | RemoveObjCall(value: V, comp: (V, V) -> int)
    | GetCall(idx: nat)
    | SetCall(idx: nat, value: V)
    | SetObjCall(search: V, value: V, comp: (V, V) -> int)

  datatype Answer<V> = Nothing | Value(v: V)

  function ElementOr<V>(s: seq<V>, i: nat, missing: V): V { if i < |s| then s[i] else missing }

  /** The operation on a sequence, and its answer. */
  function Served<V(==)>(s: seq<V>, call: Call<V>, missing: V): (seq<V>, Answer<V>) {
    match call
    case AddLastCall(v) => (s + [v], Nothing)
    case AddFirstCall(v) => ([v] + s, Nothing)
    case InsertCall(i, v) => (InsertAt(s, i, v), Nothing)
    case RemoveCall(i) => (RemoveAt(s, i), Value(ElementOr(s, i, missing)))
    case RemoveFirstCall => (RemoveAt(s, 0), Value(ElementOr(s, 0, missing)))
    case RemoveLastCall => if s == [] then (s, Value(missing)) else (s[..|s| - 1], Value(s[|s| - 1]))
    case RemoveObjCall(v, comp) => var i := FindFirst(s, v, comp); (RemoveAt(s, i), Value(ElementOr(s, i, missing)))
    case GetCall(i) => (s, Value(ElementOr(s, i, missing)))
    case SetCall(i, v) => (SetAt(s, i, v), Value(ElementOr(s, i, missing)))
    case SetObjCall(search, v, comp) => var i := FindFirst(s, search, comp); (SetAt(s, i, v), Value(ElementOr(s, i, missing)))
  }

  function ServedAll<V(==)>(s: seq<V>, calls: seq<Call<V>>, missing: V): (seq<V>, seq<Answer<V>>)
    decreases |calls|
  {
    if calls == [] then (s, [])
    else
      var first := Served(s, calls[0], missing);
      var rest := ServedAll(first.0, calls[1..], missing);
      (rest.0, [first.1] + rest.1)
  }

  lemma NoAnswersYet<V>(s: seq<V>, calls: seq<Call<V>>, missing: V)
    ensures var all := ServedAll(s, calls, missing); all == (all.0, [] + all.1)
  {
    assert [] + ServedAll(s, calls, missing).1 == ServedAll(s, calls, missing).1;
  }

  lemma LastRemoved<V>(before: seq<V>, now: seq<V>, v: V, missing: V)
    requires if before == [] then v == missing && now == [] else now + [v] == before
    ensures (now, Value(v)) == Served(before, RemoveLastCall, missing)
  {
    if before != [] {
      assert |before| == |now| + 1 && before[|now|] == v;
      assert before[..|now|] == now;
    }
  }

  lemma MoreValues<V>(nodes: seq<Node<V>>, elements: seq<V>, k: nat, o: Node<V>)
    requires Holds(nodes, elements) && 0 < k < |nodes|
    ensures Holds(nodes[..k] + [o] + nodes[k..], elements[..k - 1] + [o.value] + elements[k - 1..])
  {
    MoreAt(nodes, k, o);
  }

  lemma EnoughNodes<V>(nodes: seq<Node<V>>, elements: seq<V>)
    requires Holds(nodes, elements)
    ensures |nodes| == |elements| + 2
  {
  }

  lemma ValueAt<V>(nodes: seq<Node<V>>, elements: seq<V>, k: nat)
    requires Holds(nodes, elements) && 0 < k < |nodes| - 1
    ensures nodes[k].value == elements[k - 1]
  {
    assert nodes[k - 1 + 1].value == elements[k - 1];
  }

  lemma LessValues<V>(nodes: seq<Node<V>>, elements: seq<V>, k: nat)
    requires Holds(nodes, elements) && 0 < k < |nodes| - 1
    ensures Holds(nodes[..k] + nodes[k + 1..], elements[..k - 1] + elements[k..])
  {
    LessAt(nodes, k);
  }
}
