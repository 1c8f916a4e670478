/** The chained hash map with its rebuilds, as a finite map on key contents. */
module HashMaps {
  import opened Primes

  class Node<V> {
    const key: string
    const hash: nat
    var value: V
    var next: Node?<V>

    constructor (key: string, hash: nat, value: V, next: Node?<V>)
      ensures this.key == key && this.hash == hash && this.value == value && this.next == next
    {
      this.key, this.hash, this.value, this.next := key, hash, value, next;
    }
  }

  function First<V>(s: seq<Node<V>>): Node?<V> { if s == [] then null else s[0] }

  function After<V>(s: seq<Node<V>>, a: nat): Node?<V> { if a + 1 < |s| then s[a + 1] else null }

  /** The nodes reached from a table slot. */
  ghost predicate Linked<V>(head: Node?<V>, s: seq<Node<V>>)
    reads (set n | n in s)`next
  {
    && head == First(s)
    && (forall a :: 0 <= a < |s| ==> s[a].next == After(s, a))
    && (forall a, b :: 0 <= a < b < |s| ==> s[a] != s[b])
  }

  /** Every slot leads to its chain, every node sits in the slot its hash gives, and all nodes are of the set. */
  ghost predicate Table<V>(table: array<Node?<V>>, chains: seq<seq<Node<V>>>, repr: set<Node<V>>)
    reads table, repr`next
  {
    && |chains| == table.Length > 0
    && (forall i, n :: 0 <= i < |chains| && n in chains[i] ==> n in repr)
    && (forall i :: 0 <= i < |chains| ==> Slot(table[i], chains[i], repr, i, |chains|))
  }

  /** The node hangs in the chain its hash gives. */
  predicate Hangs<V>(n: Node<V>, chains: seq<seq<Node<V>>>) {
    |chains| > 0 && n in chains[n.hash % |chains|]
  }

  ghost predicate Slot<V>(head: Node?<V>, s: seq<Node<V>>, repr: set<Node<V>>, i: nat, length: nat)
    requires length > 0
    reads (set n | n in s)`next
  {
    && (forall n :: n in s ==> n in repr && n.hash % length == i)
    && Linked(head, s)
  }

  /** The nodes are the entries of the map: each hangs in its chain, and no key has two. */
  ghost predicate Entries<V>(chains: seq<seq<Node<V>>>, repr: set<Node<V>>, contents: map<string, V>, hash: string -> nat)
    requires |chains| > 0
    reads repr`value
  {
    && (forall n :: n in repr ==> n.hash == hash(n.key) && Hangs(n, chains))
    && (forall m, n :: m in repr && n in repr && m.key == n.key ==> m == n)
    && (forall n :: n in repr ==> n.key in contents && contents[n.key] == n.value)
    && (forall k :: k in contents ==> exists n :: n in repr && n.key == k)
  }

  /** factor * length, cut to an integer. */
  function Bound(factor: real, length: nat): (n: nat)
    requires factor > 0.0
    ensures n as real <= factor * length as real < n as real + 1.0
  {
    (factor * length as real).Floor
  }

  /** The walk along a chain. */
  method Search<V>(head: Node?<V>, ghost s: seq<Node<V>>, key: string) returns (e: Node?<V>)
    requires Linked(head, s)
    ensures e == null ==> forall n :: n in s ==> n.key != key
    ensures e != null ==> e in s && e.key == key
  {
    ghost var i := 0;
    e := head;
    while e != null
      invariant 0 <= i <= |s| && e == if i < |s| then s[i] else null
      invariant forall k :: 0 <= k < i ==> s[k].key != key
      decreases |s| - i
    {
      if e.key == key { return; }
      NextOf(head, s, i);
      e, i := e.next, i + 1;
    }
  }

  lemma NextOf<V>(head: Node?<V>, s: seq<Node<V>>, i: nat)
    requires Linked(head, s) && i < |s|
    ensures s[i].next == After(s, i)
  {
  }

  /** Hangs a node in front of its chain. */
  method Push<V>(table: array<Node?<V>>, idx: nat, e: Node<V>, ghost chains: seq<seq<Node<V>>>, ghost repr: set<Node<V>>)
    requires Table(table, chains, repr) && e.hash % |chains| == idx && !Hangs(e, chains)
    modifies table, e`next
    ensures Table(table, chains[idx := [e] + chains[idx]], repr + {e})
    ensures table[idx] == e
  {
    ghost var s, more := chains[idx], chains[idx := [e] + chains[idx]];
    assert Slot(table[idx], s, repr, idx, |chains|);
    e.next := table[idx];
    table[idx] := e;
    PushLinked(e, s);
    forall i | 0 <= i < |more| ensures Slot(table[i], more[i], repr + {e}, i, |more|) {
      if i != idx { assert Slot(old(table[i]), chains[i], repr, i, |chains|); }
    }
  }

  lemma PushLinked<V>(e: Node<V>, s: seq<Node<V>>)
    requires Linked(e.next, s) && e !in s
    ensures Linked(e, [e] + s)
  {
    var more := [e] + s;
    forall a | 0 <= a < |more| ensures more[a].next == After(more, a) {
      if a > 0 { NextOf(e.next, s, a - 1); }
    }
    assert forall a, b :: 0 <= a < b < |more| ==> more[a] != more[b];
    assert e == First(more);
  }

  /** Of the nodes, exactly those in `have` hang in the chains. */
  ghost predicate Hung<V>(chains: seq<seq<Node<V>>>, repr: set<Node<V>>, have: set<Node<V>>) {
    forall n :: n in repr ==> (Hangs(n, chains) <==> n in have)
  }

  /** Moves all nodes of one chain to a new table. */
  method MoveChain<V>(head: Node?<V>, table: array<Node?<V>>, ghost s: seq<Node<V>>,
        ghost chains: seq<seq<Node<V>>>, ghost repr: set<Node<V>>, ghost have0: set<Node<V>>)
    returns (ghost moved: seq<seq<Node<V>>>, ghost have: set<Node<V>>)
    requires Linked(head, s) && Table(table, chains, repr) && Hung(chains, repr, have0)
    requires forall n :: n in s ==> n in repr && n !in have0
    modifies table, (set n | n in s)`next
    ensures Table(table, moved, repr) && |moved| == |chains|
    ensures Hung(moved, repr, have) && have == have0 + set n | n in s
  {
    hide Linked, Table, Slot, Hangs, Hung;
    moved, have := chains, have0;
    var e := head;
    ghost var rest := s;
    while e != null
      invariant Linked(e, rest) && Table(table, moved, repr) && |moved| == |chains| && Hung(moved, repr, have)
      invariant forall n :: n in rest ==> n in s && n !in have
      invariant forall n :: n in s ==> n in rest || n in have
      invariant have0 <= have <= have0 + set n | n in s
      decreases |rest|
    {
      RestLinked(e, rest);
      SameLength(table, moved, repr);
      NotHung(moved, repr, have, e);
      var next, idx := e.next, e.hash % table.Length;
      Push(table, idx, e, moved, repr);
      assert repr + {e} == repr;
      PushedIn(moved, idx, e, repr, have);
      moved, have := moved[idx := [e] + moved[idx]], have + {e};
      e, rest := next, rest[1..];
    }
    LinkedEnd(rest);
  }

  lemma NotHung<V>(chains: seq<seq<Node<V>>>, repr: set<Node<V>>, have: set<Node<V>>, e: Node<V>)
    requires Hung(chains, repr, have) && e in repr && e !in have
    ensures !Hangs(e, chains)
  {
  }

  lemma LinkedEnd<V>(s: seq<Node<V>>)
    requires Linked(null, s)
    ensures s == []
  {
  }

  lemma PushedIn<V>(chains: seq<seq<Node<V>>>, idx: nat, e: Node<V>, repr: set<Node<V>>, have: set<Node<V>>)
    requires idx < |chains| && e.hash % |chains| == idx && Hung(chains, repr, have)
    ensures Hung(chains[idx := [e] + chains[idx]], repr, have + {e})
  {
  }

  /** Moves all nodes of a table to an empty one. */
  method MoveAll<V>(table: array<Node?<V>>, into: array<Node?<V>>, ghost chains: seq<seq<Node<V>>>, ghost repr: set<Node<V>>)
    returns (ghost now: seq<seq<Node<V>>>)
    requires Table(table, chains, repr) && table != into && into.Length > 0
    requires forall i :: 0 <= i < into.Length ==> into[i] == null
    requires forall n :: n in repr ==> Hangs(n, chains)
    modifies into, repr`next
    ensures |now| == into.Length && Table(into, now, repr)
    ensures forall n :: n in repr ==> Hangs(n, now)
  {
    hide Table, Linked;
    now := seq(into.Length, _ => []);
    EmptyTable(into, now, repr);
    SameLength(table, chains, repr);
    ghost var have: set<Node<V>> := {};
    var i := 0;
    while i < table.Length
      invariant 0 <= i <= table.Length && |now| == into.Length
      invariant Table(into, now, repr) && Hung(now, repr, have)
      invariant forall k :: i <= k < table.Length ==> Slot(table[k], chains[k], repr, k, |chains|)
      invariant forall n :: n in repr ==> (n in have <==> n.hash % |chains| < i)
    {
      ghost var s := chains[i];
      assert Slot(table[i], s, repr, i, |chains|);
      now, have := MoveChain(table[i], into, s, now, repr, have);
      i := i + 1;
    }
  }

  lemma SameLength<V>(table: array<Node?<V>>, chains: seq<seq<Node<V>>>, repr: set<Node<V>>)
    requires Table(table, chains, repr)
    ensures |chains| == table.Length > 0
    ensures forall k :: 0 <= k < |chains| ==> Slot(table[k], chains[k], repr, k, |chains|)
  {
  }

  lemma RestLinked<V>(head: Node<V>, s: seq<Node<V>>)
    requires Linked(head, s)
    ensures s != [] && s[0] == head && Linked(head.next, s[1..]) && head !in s[1..]
    ensures forall n :: n in s <==> n == head || n in s[1..]
  {
    var rest := s[1..];
    assert s == [s[0]] + rest;
    NextOf(head, s, 0);
    forall a | 0 <= a < |rest| ensures rest[a].next == After(rest, a) {
      NextOf(head, s, a + 1);
    }
    assert forall a, b :: 0 <= a < b < |rest| ==> rest[a] != rest[b];
    assert Linked(head.next, rest);
  }

  /** The walk along a chain that also keeps the node before. */
  method SearchWithPrev<V>(head: Node?<V>, ghost s: seq<Node<V>>, key: string)
    returns (e: Node?<V>, prev: Node?<V>, ghost a: nat)
    requires Linked(head, s)
    ensures e == null ==> forall n :: n in s ==> n.key != key
    ensures e != null ==> a < |s| && e == s[a] && e.key == key && prev == if a > 0 then s[a - 1] else null
  {
    a := 0;
    e, prev := head, null;
    while e != null
      invariant 0 <= a <= |s| && e == (if a < |s| then s[a] else null) && prev == if a > 0 then s[a - 1] else null
      invariant forall k :: 0 <= k < a ==> s[k].key != key
      decreases |s| - a
    {
      if e.key == key { return; }
      NextOf(head, s, a);
      prev, e, a := e, e.next, a + 1;
    }
  }

  /** Takes a node out of its chain; what the slot leads to then. */
  method UnlinkNode<V>(head: Node?<V>, prev: Node?<V>, e: Node<V>, ghost s: seq<Node<V>>, ghost a: nat)
    returns (first: Node?<V>)
    requires Linked(head, s) && a < |s| && e == s[a] && prev == if a > 0 then s[a - 1] else null
    modifies (if prev == null then {} else {prev})`next
    ensures Linked(first, s[..a] + s[a + 1..])
  {
    NextOf(head, s, a);
    ghost var less := s[..a] + s[a + 1..];
    forall k | 0 <= k < |less| ensures less[k] == s[if k < a then k else k + 1] {}
    forall k | 0 <= k < |s| ensures s[k].next == After(s, k) { NextOf(head, s, k); }
    if prev == null {
      first := e.next;
    } else {
      prev.next := e.next;
      first := head;
    }
    forall k | 0 <= k < |less| ensures less[k].next == After(less, k) {}
    assert forall k, m :: 0 <= k < m < |less| ==> less[k] != less[m];
    assert first == First(less);
  }

  method Unlink<V>(table: array<Node?<V>>, idx: nat, prev: Node?<V>, e: Node<V>,
        ghost chains: seq<seq<Node<V>>>, ghost repr: set<Node<V>>, ghost a: nat)
    requires Table(table, chains, repr) && idx < |chains| && a < |chains[idx]| && e == chains[idx][a]
    requires prev == if a > 0 then chains[idx][a - 1] else null
    modifies table, (if prev == null then {} else {prev})`next
    ensures Table(table, chains[idx := chains[idx][..a] + chains[idx][a + 1..]], repr - {e})
  {
    hide Linked, Slot, Table;
    ghost var s := chains[idx];
    ghost var less, others := s[..a] + s[a + 1..], repr - {e};
    OtherSlots(table, chains, repr, idx, e);
    ghost var heads := table[..];
    assert prev != null ==> prev in s;
    var first := UnlinkNode(table[idx], prev, e, s, a);
    LessSlot(first, s, repr, idx, |chains|, a);
    forall i | 0 <= i < |chains| && i != idx ensures Slot(heads[i], chains[i], others, i, |chains|) {
      assert prev !in chains[i];
    }
    table[idx] := first;
    ghost var more := chains[idx := less];
    forall i | 0 <= i < |more| ensures Slot(table[i], more[i], others, i, |more|) {
      if i != idx { assert Slot(heads[i], chains[i], others, i, |chains|); }
    }
    FromSlots(table, more, others);
  }

  lemma OtherSlots<V>(table: array<Node?<V>>, chains: seq<seq<Node<V>>>, repr: set<Node<V>>, idx: nat, e: Node<V>)
    requires Table(table, chains, repr) && idx < |chains| && e in chains[idx]
    ensures |chains| == table.Length && Linked(table[idx], chains[idx])
    ensures forall n :: n in chains[idx] ==> n in repr && n.hash % |chains| == idx
    ensures forall a, b :: 0 <= a < b < |chains[idx]| ==> chains[idx][a] != chains[idx][b]
    ensures forall i, n :: 0 <= i < |chains| && i != idx && n in chains[i] ==> n in repr && n !in chains[idx]
    ensures forall i :: 0 <= i < |chains| && i != idx ==> Slot(table[i], chains[i], repr - {e}, i, |chains|)
  {
    SlotLinked(table[idx], chains[idx], repr, idx, |chains|);
    forall i | 0 <= i < |chains| && i != idx ensures Slot(table[i], chains[i], repr - {e}, i, |chains|) {
      assert Slot(table[i], chains[i], repr, i, |chains|);
    }
  }

  lemma LessSlot<V>(first: Node?<V>, s: seq<Node<V>>, repr: set<Node<V>>, idx: nat, length: nat, a: nat)
    requires a < |s| && length > 0 && Linked(first, s[..a] + s[a + 1..])
    requires forall n :: n in s ==> n in repr && n.hash % length == idx
    requires forall k, m :: 0 <= k < m < |s| ==> s[k] != s[m]
    ensures Slot(first, s[..a] + s[a + 1..], repr - {s[a]}, idx, length)
    ensures forall n :: n in s[..a] + s[a + 1..] ==> n in repr - {s[a]}
  {
    hide Linked;
  }

  lemma FromSlots<V>(table: array<Node?<V>>, chains: seq<seq<Node<V>>>, repr: set<Node<V>>)
    requires |chains| == table.Length > 0
    requires forall i, n :: 0 <= i < |chains| && n in chains[i] ==> n in repr
    requires forall i :: 0 <= i < |chains| ==> Slot(table[i], chains[i], repr, i, |chains|)
    ensures Table(table, chains, repr)
  {
  }

  lemma SlotLinked<V>(head: Node?<V>, s: seq<Node<V>>, repr: set<Node<V>>, i: nat, length: nat)
    requires length > 0 && Slot(head, s, repr, i, length)
    ensures Linked(head, s) && forall a, b :: 0 <= a < b < |s| ==> s[a] != s[b]
    ensures forall n :: n in s ==> n in repr
  {
  }

  method ClearTable<V>(table: array<Node?<V>>)
    modifies table
    ensures forall i :: 0 <= i < table.Length ==> table[i] == null
  {
    var idx := 0;
    while idx < table.Length
      invariant 0 <= idx <= table.Length
      invariant forall i :: 0 <= i < idx ==> table[i] == null
    {
      table[idx] := null;
      idx := idx + 1;
    }
  }

  lemma EmptyEntries<V>(chains: seq<seq<Node<V>>>, hash: string -> nat)
    requires |chains| > 0
    ensures Entries(chains, {}, map[], hash)
  {
  }

  method StoreValue<V>(e: Node<V>, value: V, ghost chains: seq<seq<Node<V>>>, ghost repr: set<Node<V>>,
        ghost contents: map<string, V>, ghost hash: string -> nat)
    requires |chains| > 0 && Entries(chains, repr, contents, hash) && e in repr
    modifies e`value
    ensures e.key in contents && Entries(chains, repr, contents[e.key := value], hash)
  {
    hide Hangs;
    e.value := value;
  }

  class HashMap<V> {
    var table: array<Node?<V>>
    var size: nat
    var threshold: nat
    const factor: real
    /** The hash function and the value a lookup gives for a missing key. */
    const hash: string -> nat
    const missing: V
    ghost var chains: seq<seq<Node<V>>>
    ghost var repr: set<Node<V>>
    ghost var contents: map<string, V>

    ghost predicate Valid()
      reads this, table, repr
    {
      && Table(table, chains, repr)
      && Entries(chains, repr, contents, hash)
      && size == |contents|
      && factor > 0.0 && threshold == Bound(factor, table.Length)
    }

    constructor (opacity: nat, factor: real, hash: string -> nat, missing: V)
      requires opacity > 0 && factor > 0.0
      ensures Valid() && fresh(table) && repr == {} && contents == map[]
      ensures this.factor == factor && this.hash == hash && this.missing == missing && table.Length == opacity
    {
      hide Bound;
      this.factor, this.hash, this.missing := factor, hash, missing;
      table := new Node?<V>[opacity](_ => null);
      size, threshold := 0, Bound(factor, opacity);
      chains, repr, contents := seq(opacity, _ => []), {}, map[];
    }

    /** The node of a key. */
    method Find(key: string) returns (e: Node?<V>)
      requires Valid()
      ensures e == null ==> key !in contents
      ensures e != null ==> e in repr && e.key == key && key in contents && contents[key] == e.value
    {
      var idx := hash(key) % table.Length;
      e := Search(table[idx], chains[idx], key);
    }

    method Get(key: string) returns (v: V)
      requires Valid()
      ensures v == if key in contents then contents[key] else missing
    {
      var e := Find(key);
      return if e != null then e.value else missing;
    }

    method Exists(key: string) returns (r: bool)
      requires Valid()
      ensures r <==> key in contents
    {
      var e := Find(key);
      return e != null;
    }

    /** Stores a value in the node of a key. */
    method Store(e: Node<V>, value: V)
      requires Valid() && e in repr
      modifies this`contents, e`value
      ensures Valid() && e.key in old(contents) && contents == old(contents)[e.key := value]
    {
      hide Bound, Table, Entries;
      Parts();
      StoreValue(e, value, chains, repr, contents, hash);
      UpdateSize(contents, e.key, value);
      contents := contents[e.key := value];
    }

    /** rebuild_hash: more than twice the slots, the same nodes, no lookup changed. */
    method Rebuild()
      requires Valid()
      modifies this`table, this`chains, this`threshold, repr`next
      ensures Valid() && fresh(table) && Rebuilt(old(table.Length), table.Length)
    {
      hide Bound, Table, IsNext, Entries, Linked, Valid, Hangs, Slot;
      Parts();
      SameLength(table, chains, repr);
      AllHome(chains, repr, contents, hash);
      var length := NextPrime(table.Length * 2 + 1);
      RebuiltLonger(table.Length, length);
      var moved := NewTable(length);
      ghost var now := MoveAll(table, moved, chains, repr);
      EntriesMoved(chains, now, repr, contents, hash);
      Adopt(moved, now);
    }

    lemma Parts()
      requires Valid()
      ensures Table(table, chains, repr) && |chains| == table.Length > 0 && Entries(chains, repr, contents, hash)
      ensures size == |contents| && factor > 0.0 && threshold == Bound(factor, table.Length)
    {
    }

    /** Takes over new contents, counted. */
    method Become(ghost chains: seq<seq<Node<V>>>, ghost repr: set<Node<V>>, ghost contents: map<string, V>, size: nat)
      requires Table(table, chains, repr) && |chains| > 0 && Entries(chains, repr, contents, hash)
      requires size == |contents| && factor > 0.0 && threshold == Bound(factor, table.Length)
      modifies this`chains, this`repr, this`contents, this`size
      ensures Valid() && this.chains == chains && this.repr == repr && this.contents == contents && this.size == size
    {
      hide Table, Entries, Linked, Bound;
      this.chains, this.repr, this.contents, this.size := chains, repr, contents, size;
    }

    /** The new table takes the place of the old one. */
    method Adopt(moved: array<Node?<V>>, ghost now: seq<seq<Node<V>>>)
      requires |now| > 0 && Table(moved, now, repr) && Entries(now, repr, contents, hash)
      requires size == |contents| && factor > 0.0
      modifies this`table, this`chains, this`threshold
      ensures Valid() && table == moved
    {
      hide Bound, Table, Entries, Linked;
      threshold := Bound(factor, moved.Length);
      table, chains := moved, now;
    }

    /** create_node_blocks. */
    method NewTable(length: nat) returns (t: array<Node?<V>>)
      ensures fresh(t) && t.Length == length && forall i :: 0 <= i < length ==> t[i] == null
    {
      t := new Node?<V>[length](_ => null);
    }

    /** Replaces the value of a key that is there. */
    method Set(key: string, value: V) returns (found: bool, v: V)
      requires Valid()
      modifies this`contents, repr`value
      ensures Valid()
      ensures found <==> key in old(contents)
      ensures v == if found then old(contents)[key] else missing
      ensures contents == if found then old(contents)[key := value] else old(contents)
    {
      hide Bound, Table, Entries;
      var e := Find(key);
      if e == null { return false, missing; }
      v := e.value;
      Store(e, value);
      return true, v;
    }

    /** Hangs a new node for a key that is not there. */
    method Insert(key: string, value: V)
      requires Valid() && key !in contents
      modifies this`contents, this`chains, this`repr, this`size, table
      ensures Valid() && contents == old(contents)[key := value] && size == old(size) + 1
      ensures fresh(repr - old(repr)) && old(repr) <= repr
    {
      hide Bound, Table, Entries, Linked;
      SameLength(table, chains, repr);
      var hcode := hash(key);
      var idx := hcode % table.Length;
      var e := new Node(key, hcode, value, table[idx]);
      NewEntry(chains, repr, contents, hash, e);
      Push(table, idx, e, chains, repr);
      InsertSize(contents, key, value);
      chains, repr, contents := chains[idx := [e] + chains[idx]], repr + {e}, contents[key := value];
      size := size + 1;
    }

    /**
     * The size stays within the threshold exactly if the key was there, or there was room, or the one rebuild,
     * which takes the next length the prime search finds, makes room.
     */
    method Put(key: string, value: V) returns (v: V)
      requires Valid()
      modifies this, table, repr
      ensures Valid() && contents == old(contents)[key := value]
      ensures v == if key in old(contents) then old(contents)[key] else missing
      ensures fresh(repr - old(repr)) && (table == old(table) || fresh(table))
      ensures old(size <= threshold) ==> forall length: nat :: Rebuilt(old(table.Length), length) ==>
        (size <= threshold <==> key in old(contents) || old(size < threshold) || old(size) < Bound(factor, length))
      ensures old(Balanced()) ==> Balanced()
    {
      hide Table, Entries, Linked, Bound, Rebuilt, Valid;
      Parts();
      var e := Find(key);
      if e != null {
        v := e.value;
        Store(e, value);
      } else {
        v := missing;
        Grow(key, value);
      }
    }

    /** Adds an entry and rebuilds the table if it has become too many. */
    method Grow(key: string, value: V)
      requires Valid() && key !in contents
      modifies this, table, repr
      ensures Valid() && contents == old(contents)[key := value]
      ensures fresh(repr - old(repr)) && (table == old(table) || fresh(table))
      ensures old(size <= threshold) ==> forall length: nat :: Rebuilt(old(table.Length), length) ==>
        (size <= threshold <==> old(size < threshold) || old(size) < Bound(factor, length))
      ensures old(Balanced()) ==> Balanced()
    {
      hide Table, Entries, Linked, Bound, Rebuilt, Valid;
      Parts();
      Insert(key, value);
      Parts();
      ghost var length := table.Length;
      if size > threshold {
        Rebuild();
        Parts();
        RebuiltUnique(length, table.Length);
        RebuiltLonger(length, table.Length);
        if old(Balanced()) { RoomAfterRebuild(factor, length, table.Length); }
      }
    }

    /** Unlinks a node that has been found. */
    method Drop(idx: nat, prev: Node?<V>, e: Node<V>, ghost a: nat)
      requires Valid() && idx < |chains| && a < |chains[idx]| && e == chains[idx][a] && e in repr
      requires prev == if a > 0 then chains[idx][a - 1] else null
      modifies this`contents, this`chains, this`repr, this`size, table, repr`next
      ensures Valid() && repr <= old(repr) && contents == old(contents) - {e.key} && size <= old(size)
    {
      hide Table, Entries, Linked, Bound, Hangs, Slot, Valid;
      Parts();
      ghost var s := chains[idx];
      ghost var less, others, rest := chains[idx := s[..a] + s[a + 1..]], repr - {e}, contents - {e.key};
      PrevIn(table, chains, repr, idx, a);
      NodeEntry(chains, repr, contents, hash, e);
      LessEntries(chains, repr, contents, hash, idx, a);
      RemoveSize(contents, e.key);
      Unlink(table, idx, prev, e, chains, repr, a);
      Become(less, others, rest, size - 1);
    }

    /** Removes a key with its value. */
    method Remove(key: string) returns (found: bool, v: V)
      requires Valid()
      modifies this`contents, this`chains, this`repr, this`size, table, repr`next
      ensures Valid() && repr <= old(repr)
      ensures found <==> key in old(contents)
      ensures v == if found then old(contents)[key] else missing
      ensures contents == old(contents) - {key} && size <= old(size)
    {
      hide Table, Entries, Linked, Bound, Hangs, Slot, Valid;
      Parts();
      SameLength(table, chains, repr);
      var idx := hash(key) % table.Length;
      ghost var s := chains[idx];
      SlotLinked(table[idx], s, repr, idx, |chains|);
      ghost var a: nat;
      var e: Node?<V>, prev: Node?<V>;
      e, prev, a := SearchWithPrev(table[idx], s, key);
      if e == null {
        NoEntry(chains, repr, contents, hash, key);
        assert contents - {key} == contents;
        return false, missing;
      }
      v := e.value;
      NodeEntry(chains, repr, contents, hash, e);
      Drop(idx, prev, e, a);
      return true, v;
    }

    /** Drops all entries; the table keeps its length. */
    method Clear()
      requires Valid()
      modifies this`contents, this`chains, this`repr, this`size, table
      ensures Valid() && contents == map[] && repr == {} && size == 0
    {
      hide Bound, Table, Entries, Linked;
      SameLength(table, chains, repr);
      ClearTable(table);
      ghost var none: seq<seq<Node<V>>> := seq(table.Length, _ => []);
      EmptyTable(table, none, {});
      EmptyEntries(none, hash);
      size := 0;
      chains, repr, contents := none, {}, map[];
    }

    /** Changes the value of a key that is there, as the increment and the decrement of the integer map do. */
    method Alter(key: string, change: V -> V) returns (found: bool)
      requires Valid()
      modifies this`contents, repr`value
      ensures Valid() && (found <==> key in old(contents))
      ensures contents == if found then old(contents)[key := change(old(contents)[key])] else old(contents)
    {
      hide Table, Entries, Linked, Bound;
      var e := Find(key);
      if e == null { return false; }
      Store(e, change(e.value));
      return true;
    }

    /** One call acts on the contents as the map operation, and gives the same answer. */
    method Serve(call: Call<V>) returns (answer: Answer<V>)
      requires Valid()
      modifies this, table, repr
      ensures Valid() && (contents, answer) == Served(old(contents), call, missing)
      ensures fresh(repr - old(repr)) && (table == old(table) || fresh(table))
      ensures old(Balanced()) ==> Balanced()
    {
      hide Table, Entries, Linked, Bound, Valid, IsNext;
      match call {
        case PutCall(key, value) =>
          var v := Put(key, value);
          answer := Value(v);
        case SetCall(key, value) =>
          var found, v := Set(key, value);
          answer := Perhaps(found, v);
        case RemoveCall(key) =>
          var found, v := Remove(key);
          answer := Perhaps(found, v);
        case AlterCall(key, change) =>
          var found := Alter(key, change);
          answer := Known(found);
        case GetCall(key) =>
          var v := Get(key);
          answer := Value(v);
        case ExistsCall(key) =>
          var found := Exists(key);
          answer := Known(found);
        case ClearCall =>
          Clear();
          answer := Nothing;
      }
    }

    /** A run of calls acts on the contents as the same run of map operations, and gives the same answers. */
    method Run(calls: seq<Call<V>>) returns (answers: seq<Answer<V>>)
      requires Valid()
      modifies this, table, repr
      ensures Valid() && (contents, answers) == ServedAll(old(contents), calls, missing)
      ensures old(Balanced()) ==> Balanced()
    {
      hide Table, Entries, Linked, Bound, Valid, Served;
      var i := 0;
      answers := [];
      assert calls[0..] == calls;
      NoAnswersYet(contents, calls, missing);
      while i < |calls|
        invariant 0 <= i <= |calls| && Valid()
        invariant (table == old(table) || fresh(table)) && fresh(repr - old(repr))
        invariant ServedAll(old(contents), calls, missing)
               == (ServedAll(contents, calls[i..], missing).0, answers + ServedAll(contents, calls[i..], missing).1)
        invariant old(Balanced()) ==> Balanced()
        decreases |calls| - i
      {
        ghost var before := answers;
        assert calls[i..][1..] == calls[i + 1..];
        var answer := Serve(calls[i]);
        ghost var rest := ServedAll(contents, calls[i + 1..], missing).1;
        assert before + ([answer] + rest) == (before + [answer]) + rest;
        answers, i := answers + [answer], i + 1;
      }
      assert answers + [] == answers;
    }

    /** The number of entries does not exceed the threshold, and one rebuild is enough to keep it so. */
    ghost predicate Balanced()
      reads this
    {
      size <= threshold && factor * (table.Length + 1) as real >= 1.0
    }
  }

  /** The length a rebuild chooses. */
  ghost predicate Rebuilt(length: nat, next: int) {
    IsNext(2 * length + 1, next)
  }

  lemma RebuiltLonger(length: nat, next: int)
    requires Rebuilt(length, next)
    ensures next >= 2 * length + 1
  {
  }

  lemma RebuiltUnique(length: nat, next: nat)
    requires Rebuilt(length, next)
    ensures forall other: nat :: Rebuilt(length, other) ==> other == next
  {
    hide IsNext;
    forall other: nat | Rebuilt(length, other) ensures other == next {
      NextUnique(2 * length + 1, other, next);
    }
  }

  lemma UpdateSize<V>(m: map<string, V>, key: string, value: V)
    requires key in m
    ensures |m[key := value]| == |m|
  {
    assert m[key := value].Keys == m.Keys;
  }

  lemma EmptyTable<V>(table: array<Node?<V>>, chains: seq<seq<Node<V>>>, repr: set<Node<V>>)
    requires |chains| == table.Length > 0
    requires forall i :: 0 <= i < |chains| ==> table[i] == null && chains[i] == []
    ensures Table(table, chains, repr)
  {
  }

  lemma AllHome<V>(chains: seq<seq<Node<V>>>, repr: set<Node<V>>, contents: map<string, V>, hash: string -> nat)
    requires |chains| > 0 && Entries(chains, repr, contents, hash)
    ensures forall n :: n in repr ==> Hangs(n, chains)
  {
  }

  /** The entries depend on the chains only in that every node is found. */
  lemma EntriesMoved<V>(chains: seq<seq<Node<V>>>, now: seq<seq<Node<V>>>, repr: set<Node<V>>, contents: map<string, V>,
        hash: string -> nat)
    requires |chains| > 0 && Entries(chains, repr, contents, hash)
    requires |now| > 0 && forall n :: n in repr ==> Hangs(n, now)
    ensures Entries(now, repr, contents, hash)
  {
  }

  lemma InsertSize<V>(m: map<string, V>, key: string, value: V)
    requires key !in m
    ensures |m[key := value]| == |m| + 1
  {
    assert m[key := value].Keys == m.Keys + {key};
  }

  lemma NewEntry<V>(chains: seq<seq<Node<V>>>, repr: set<Node<V>>, contents: map<string, V>, hash: string -> nat, e: Node<V>)
    requires |chains| > 0 && Entries(chains, repr, contents, hash)
    requires e !in repr && e.key !in contents && e.hash == hash(e.key) && !Hangs(e, chains)
    ensures Entries(chains[e.hash % |chains| := [e] + chains[e.hash % |chains|]], repr + {e}, contents[e.key := e.value], hash)
  {
  }

  /** A rebuild makes room for at least one more entry, unless the factor is too small for the table. */
  lemma RoomAfterRebuild(factor: real, length: nat, more: nat)
    requires factor > 0.0 && factor * (length + 1) as real >= 1.0 && more >= 2 * length + 1
    ensures Bound(factor, more) >= Bound(factor, length) + 1
    ensures factor * (more + 1) as real >= 1.0
  {
    ScaleReal(factor, (2 * length + 1) as real, more as real);
    ScaleReal(factor, (length + 1) as real, (more + 1) as real);
    var a, b := factor * length as real, factor * (length + 1) as real;
    assert factor * (2 * length + 1) as real == a + b;
    assert factor * more as real >= a + 1.0;
  }

  lemma ScaleReal(f: real, a: real, b: real)
    requires f > 0.0 && a <= b
    ensures f * a <= f * b
  {
    assert f * b - f * a == f * (b - a);
  }

  /** With a factor that is too small the table stays overfull: two slots and a tenth of an entry for each. */
  method TooSmallFactor<V>(hash: string -> nat, missing: V, key: string, value: V) returns (m: HashMap<V>)
    ensures m.Valid() && m.contents == map[key := value] && m.size > m.threshold
  {
    hide Table<V>, Entries<V>, Linked<V>;
    m := new HashMap(2, 0.1, hash, missing);
    FivePasses();
    var _ := m.Put(key, value);
  }

  lemma FivePasses()
    ensures Rebuilt(2, 5) && Bound(0.1, 2) == Bound(0.1, 5) == 0
  {
  }

  lemma RemoveSize<V>(m: map<string, V>, key: string)
    requires key in m
    ensures |m - {key}| == |m| - 1
  {
    assert (m - {key}).Keys == m.Keys - {key};
  }

  /** A key that no node of its chain has is not in the map. */
  lemma NoEntry<V>(chains: seq<seq<Node<V>>>, repr: set<Node<V>>, contents: map<string, V>, hash: string -> nat, key: string)
    requires |chains| > 0 && Entries(chains, repr, contents, hash)
    requires forall n :: n in chains[hash(key) % |chains|] ==> n.key != key
    ensures key !in contents
  {
  }

  lemma NodeEntry<V>(chains: seq<seq<Node<V>>>, repr: set<Node<V>>, contents: map<string, V>, hash: string -> nat, e: Node<V>)
    requires |chains| > 0 && Entries(chains, repr, contents, hash) && e in repr
    ensures e.key in contents && contents[e.key] == e.value
  {
  }

  lemma LessEntries<V>(chains: seq<seq<Node<V>>>, repr: set<Node<V>>, contents: map<string, V>, hash: string -> nat,
        idx: nat, a: nat)
    requires |chains| > 0 && Entries(chains, repr, contents, hash)
    requires idx < |chains| && a < |chains[idx]| && chains[idx][a] in repr
    ensures var s, e := chains[idx], chains[idx][a];
      Entries(chains[idx := s[..a] + s[a + 1..]], repr - {e}, contents - {e.key}, hash)
  {
  }

  // ---------- runs ----------

  datatype Call<!V> =
    | PutCall(key: string, value: V)
    | SetCall(key: string, value: V)
    | RemoveCall(key: string)
    | AlterCall(key: string, change: V -> V)
    | GetCall(key: string)
    | ExistsCall(key: string)
    | ClearCall

  datatype Answer<V> = Nothing | Value(v: V) | Known(found: bool) | Perhaps(found: bool, v: V)

  function ValueOr<V>(m: map<string, V>, key: string, missing: V): V {
    if key in m then m[key] else missing
  }

  /** The operation on a finite map, and its answer. */
  function Served<V>(m: map<string, V>, call: Call<V>, missing: V): (map<string, V>, Answer<V>) {
    match call
    case PutCall(key, value) => (m[key := value], Value(ValueOr(m, key, missing)))
    case SetCall(key, value) => (if key in m then m[key := value] else m, Perhaps(key in m, ValueOr(m, key, missing)))
    case RemoveCall(key) => (m - {key}, Perhaps(key in m, ValueOr(m, key, missing)))
    case AlterCall(key, change) => (if key in m then m[key := change(m[key])] else m, Known(key in m))
    case GetCall(key) => (m, Value(ValueOr(m, key, missing)))
    case ExistsCall(key) => (m, Known(key in m))
    case ClearCall => (map[], Nothing)
  }

  function ServedAll<V>(m: map<string, V>, calls: seq<Call<V>>, missing: V): (map<string, V>, seq<Answer<V>>)
    decreases |calls|
  {
    if calls == [] then (m, [])
    else
      var first := Served(m, calls[0], missing);
      var rest := ServedAll(first.0, calls[1..], missing);
      (rest.0, [first.1] + rest.1)
  }

  lemma NoAnswersYet<V>(m: map<string, V>, calls: seq<Call<V>>, missing: V)
    ensures var all := ServedAll(m, calls, missing); all == (all.0, [] + all.1)
  {
    assert [] + ServedAll(m, calls, missing).1 == ServedAll(m, calls, missing).1;
  }

  // ---------- the integer map ----------

  /** Adds to the value of a key; the decrement is the same with the sign changed. */
  method Increase(map0: HashMap<int>, key: string, inc: int) returns (found: bool)
    requires map0.Valid()
    modifies map0`contents, map0.repr`value
    ensures map0.Valid() && (found <==> key in old(map0.contents))
    ensures map0.contents ==
      if found then old(map0.contents)[key := old(map0.contents)[key] + inc] else old(map0.contents)
  {
    found := map0.Alter(key, v => v + inc);
  }

  lemma PrevIn<V>(table: array<Node?<V>>, chains: seq<seq<Node<V>>>, repr: set<Node<V>>, idx: nat, a: nat)
    requires Table(table, chains, repr) && idx < |chains| && a < |chains[idx]|
    ensures a > 0 ==> chains[idx][a - 1] in repr
  {
  }
}
