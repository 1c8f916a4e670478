/** The streaming parts of SHA-256 and MD5: buffering, counting and padding around an arbitrary block function. */
module Digests {
  import opened Arithmetic
  import opened Basics

  const BLOCK := 64
  const WORD := 0x1_0000_0000
  const INT_MAX := 0x7FFF_FFFF
  const WORD2 := 0x1_0000_0000_0000_0000

  // ---------- folding blocks ----------

  /** The state after the blocks of a text, one after the other. */
  function Fold<S>(f: (S, seq<Byte>) -> S, s: S, m: seq<Byte>): S
    requires |m| % BLOCK == 0
    decreases |m|
  {
    if m == [] then s else Fold(f, f(s, m[..BLOCK]), m[BLOCK..])
  }

  lemma {:induction false} FoldJoin<S>(f: (S, seq<Byte>) -> S, s: S, a: seq<Byte>, b: seq<Byte>)
    requires |a| % BLOCK == 0 && |b| % BLOCK == 0
    ensures Fold(f, s, a + b) == Fold(f, Fold(f, s, a), b)
    decreases |a|
  {
    if a == [] {
      assert a + b == b;
    } else {
      assert (a + b)[..BLOCK] == a[..BLOCK] && (a + b)[BLOCK..] == a[BLOCK..] + b;
      FoldJoin(f, f(s, a[..BLOCK]), a[BLOCK..], b);
    }
  }

  /** One block more of a text whose first `k` bytes have been folded. */
  lemma FoldNext<S>(f: (S, seq<Byte>) -> S, s: S, m: seq<Byte>, k: nat)
    requires k % BLOCK == 0 && k + BLOCK <= |m|
    ensures Fold(f, s, m[..k + BLOCK]) == f(Fold(f, s, m[..k]), m[k..k + BLOCK])
  {
    var b := m[k..k + BLOCK];
    assert m[..k + BLOCK] == m[..k] + b;
    FoldJoin(f, s, m[..k], b);
    assert b[..BLOCK] == b && b[BLOCK..] == [];
    assert Fold(f, f(Fold(f, s, m[..k]), b), []) == f(Fold(f, s, m[..k]), b);
  }

  function Whole(n: nat): (k: nat)
    ensures k % BLOCK == 0 && k <= n < k + BLOCK
  {
    n - n % BLOCK
  }

  // ---------- padding ----------

  function Zeros(n: nat): (z: seq<Byte>)
    ensures |z| == n && forall i :: 0 <= i < n ==> z[i] == 0
  {
    if n == 0 then [] else [0] + Zeros(n - 1)
  }

  /** A one bit and zeros up to 56 bytes modulo 64 (section 5.1.1 of FIPS 180-2, section 3.1 of RFC 1321). */
  function Filler(n: nat): (p: seq<Byte>)
    ensures 1 <= |p| <= BLOCK && (n + |p|) % BLOCK == 56
    ensures p[0] == 128 && forall i :: 0 < i < |p| ==> p[i] == 0
  {
    [0x80] + Zeros((BLOCK + 55 - n % BLOCK) % BLOCK)
  }

  /** The number that bytes spell, the most significant one first. */
  function ValueMsb(b: seq<Byte>): nat {
    if b == [] then 0 else 256 * ValueMsb(b[..|b| - 1]) + b[|b| - 1]
  }

  /** The number that bytes spell, the least significant one first. */
  function ValueLsb(b: seq<Byte>): nat {
    if b == [] then 0 else b[0] + 256 * ValueLsb(b[1..])
  }

  lemma {:induction false} MsbUnique(a: seq<Byte>, b: seq<Byte>)
    requires |a| == |b| && ValueMsb(a) == ValueMsb(b)
    ensures a == b
    decreases |a|
  {
    if a != [] {
      MsbUnique(a[..|a| - 1], b[..|b| - 1]);
      assert a == a[..|a| - 1] + [a[|a| - 1]] && b == b[..|b| - 1] + [b[|b| - 1]];
    }
  }

  lemma {:induction false} LsbUnique(a: seq<Byte>, b: seq<Byte>)
    requires |a| == |b| && ValueLsb(a) == ValueLsb(b)
    ensures a == b
    decreases |a|
  {
    if a != [] {
      LsbUnique(a[1..], b[1..]);
      assert a == [a[0]] + a[1..] && b == [b[0]] + b[1..];
    }
  }

  /** PUT_UINT32_BE. */
  function Word4(w: nat): (b: seq<Byte>)
    ensures |b| == 4
  {
    [w / 0x100_0000 % 0x100, w / 0x1_0000 % 0x100, w / 0x100 % 0x100, w % 0x100]
  }

  function Reverse4(b: seq<Byte>): (r: seq<Byte>)
    requires |b| == 4
    ensures |r| == 4
  {
    [b[3], b[2], b[1], b[0]]
  }

  lemma MsbStep(b: seq<Byte>, x: Byte)
    ensures ValueMsb(b + [x]) == 256 * ValueMsb(b) + x
  {
    assert (b + [x])[..|b|] == b;
  }

  lemma WordBytes(w: nat)
    requires w < WORD
    ensures var b := Word4(w);
      var x: int, y: int, z: int := b[0], b[1], b[2];
      w == 0x100_0000 * x + 0x1_0000 * y + 0x100 * z + b[3]
  {
    assert w / 0x100 / 0x100 == w / 0x1_0000 && w / 0x1_0000 / 0x100 == w / 0x100_0000;
  }

  /** Two words, the high one first, spell their number. */
  lemma MsbOfWords(high: nat, low: nat)
    requires high < WORD && low < WORD
    ensures ValueMsb(Word4(high) + Word4(low)) == high * WORD + low
  {
    var a, b := Word4(high), Word4(low);
    WordBytes(high);
    WordBytes(low);
    MsbStep([], a[0]);
    MsbStep([a[0]], a[1]);
    MsbStep([a[0], a[1]], a[2]);
    MsbStep([a[0], a[1], a[2]], a[3]);
    var s: seq<Byte> := [a[0], a[1], a[2], a[3]];
    MsbStep(s, b[0]);
    MsbStep(s + [b[0]], b[1]);
    MsbStep(s + [b[0]] + [b[1]], b[2]);
    MsbStep(s + [b[0]] + [b[1]] + [b[2]], b[3]);
    assert [] + [a[0]] == [a[0]] && [a[0]] + [a[1]] == [a[0], a[1]];
    assert [a[0], a[1]] + [a[2]] == [a[0], a[1], a[2]] && [a[0], a[1], a[2]] + [a[3]] == s;
    assert s + [b[0]] + [b[1]] + [b[2]] + [b[3]] == a + b;
  }

  /** Two words, each with its low byte first and the low one first, spell their number the other way round. */
  lemma LsbOfWords(low: nat, high: nat)
    requires high < WORD && low < WORD
    ensures ValueLsb(Reverse4(Word4(low)) + Reverse4(Word4(high))) == high * WORD + low
  {
    var a, b := Word4(low), Word4(high);
    WordBytes(high);
    WordBytes(low);
    var s := Reverse4(a) + Reverse4(b);
    assert s == [a[3], a[2], a[1], a[0], b[3], b[2], b[1], b[0]];
    LsbStep(s);
    LsbStep(s[1..]);
    LsbStep(s[1..][1..]);
    LsbStep(s[1..][1..][1..]);
    LsbStep(s[1..][1..][1..][1..]);
    LsbStep(s[1..][1..][1..][1..][1..]);
    LsbStep(s[1..][1..][1..][1..][1..][1..]);
    LsbStep(s[1..][1..][1..][1..][1..][1..][1..]);
  }

  lemma LsbStep(s: seq<Byte>)
    requires s != []
    ensures ValueLsb(s) == s[0] + 256 * ValueLsb(s[1..])
    ensures |s| == 1 ==> ValueLsb(s[1..]) == 0
  {
  }

  lemma EightMore(n: nat)
    requires n % BLOCK == 56
    ensures (n + 8) % BLOCK == 0
  {
  }

  function Padded(m: seq<Byte>, length: seq<Byte>): (p: seq<Byte>)
    requires |length| == 8
    ensures |p| % BLOCK == 0
  {
    var filler := Filler(|m|);
    EightMore(|m| + |filler|);
    m + filler + length
  }

  // ---------- buffering ----------

  method CopyIn(buffer: array<Byte>, at: nat, src: seq<Byte>)
    requires at + |src| <= buffer.Length
    modifies buffer
    ensures buffer[..at] == old(buffer[..at]) && buffer[at..at + |src|] == src
    ensures buffer[at + |src|..] == old(buffer[at + |src|..])
  {
    for i := 0 to |src|
      invariant buffer[..at] == old(buffer[..at]) && buffer[at..at + i] == src[..i]
      invariant buffer[at + i..] == old(buffer[at + i..])
    {
      ghost var done, rest := buffer[at..at + i], buffer[at + i..];
      buffer[at + i] := src[i];
      assert buffer[at..at + i + 1] == done + [src[i]] && src[..i + 1] == src[..i] + [src[i]];
      assert buffer[at + i + 1..] == rest[1..] && old(buffer[at + i + 1..]) == old(buffer[at + i..])[1..];
    }
  }

  /** What a context knows of the message: the state of its whole blocks, and the rest in the buffer. */
  ghost predicate Buffered<S>(f: (S, seq<Byte>) -> S, initial: S, state: S, buffer: array<Byte>, message: seq<Byte>)
    reads buffer
  {
    && buffer.Length == BLOCK
    && state == Fold(f, initial, message[..Whole(|message|)])
    && buffer[..|message| % BLOCK] == message[Whole(|message|)..]
  }

  /** The block loop over the input, from position `p` on. */
  method Blocks<S>(f: (S, seq<Byte>) -> S, ghost initial: S, state0: S, input: seq<Byte>, p0: nat, ghost all: seq<Byte>, ghost k0: nat)
    returns (state: S, p: nat)
    requires p0 <= |input| && k0 % BLOCK == 0 && k0 + (|input| - p0) == |all| && all[k0..] == input[p0..]
    requires state0 == Fold(f, initial, all[..k0])
    ensures p0 <= p <= |input| && |input| - p < BLOCK && Whole(|all|) == |all| - (|input| - p)
    ensures state == Fold(f, initial, all[..Whole(|all|)]) && all[Whole(|all|)..] == input[p..]
  {
    ghost var k := k0;
    state, p := state0, p0;
    while |input| - p >= BLOCK
      invariant p0 <= p <= |input| && k % BLOCK == 0 && k + (|input| - p) == |all| && all[k..] == input[p..]
      invariant state == Fold(f, initial, all[..k])
      decreases |input| - p
    {
      FoldNext(f, initial, all, k);
      assert all[k..k + BLOCK] == all[k..][..BLOCK] == input[p..p + BLOCK];
      assert all[k + BLOCK..] == all[k..][BLOCK..] && input[p + BLOCK..] == input[p..][BLOCK..];
      state := f(state, input[p..p + BLOCK]);
      p, k := p + BLOCK, k + BLOCK;
    }
  }

  /** Fills the buffer up and folds it, when there is something in it and enough input. */
  method FillUp<S>(f: (S, seq<Byte>) -> S, ghost initial: S, state0: S, buffer: array<Byte>, left: nat, input: seq<Byte>,
        ghost message: seq<Byte>)
    returns (state: S, p: nat)
    requires Buffered(f, initial, state0, buffer, message) && left == |message| % BLOCK
    requires left > 0 && left + |input| >= BLOCK
    modifies buffer
    ensures p == BLOCK - left && (|message| + p) % BLOCK == 0
    ensures state == Fold(f, initial, (message + input)[..|message| + p])
  {
    ghost var all, k := message + input, Whole(|message|);
    p := BLOCK - left;
    CopyIn(buffer, left, input[..p]);
    assert buffer[..] == buffer[..left] + buffer[left..BLOCK];
    assert all[k..k + BLOCK] == message[k..] + input[..p];
    assert all[..k] == message[..k];
    FoldNext(f, initial, all, k);
    state := f(state0, buffer[..]);
  }

  /** The whole update but for the counters; the last bytes stay in the buffer. */
  method Absorb<S>(f: (S, seq<Byte>) -> S, ghost initial: S, state0: S, buffer: array<Byte>, left0: nat, input: seq<Byte>,
        ghost message: seq<Byte>)
    returns (state: S)
    requires Buffered(f, initial, state0, buffer, message) && left0 == |message| % BLOCK
    modifies buffer
    ensures Buffered(f, initial, state, buffer, message + input)
  {
    ghost var all := message + input;
    var left, p := left0, 0;
    state := state0;
    if left > 0 && left + |input| >= BLOCK {
      state, p := FillUp(f, initial, state, buffer, left, input, message);
      left := 0;
    }
    if left == 0 {
      ghost var k := |message| + p;
      assert all[k..] == input[p..];
      assert left0 == 0 ==> all[..k] == message && message[..Whole(|message|)] == message;
      state, p := Blocks(f, initial, state, input, p, all, k);
      if p < |input| { CopyIn(buffer, 0, input[p..]); }
      assert buffer[..|all| % BLOCK] == all[Whole(|all|)..];
    } else {
      StillSmall(message, input);
      if p < |input| { CopyIn(buffer, left, input[p..]); }
      assert buffer[..|all| % BLOCK] == buffer[..left] + buffer[left..left + |input|];
    }
  }

  lemma StillSmall(message: seq<Byte>, input: seq<Byte>)
    requires |message| % BLOCK + |input| < BLOCK
    ensures var all := message + input;
      && Whole(|all|) == Whole(|message|) && |all| % BLOCK == |message| % BLOCK + |input|
      && all[..Whole(|all|)] == message[..Whole(|message|)]
      && all[Whole(|all|)..] == message[Whole(|message|)..] + input
  {
    var all := message + input;
    assert all[Whole(|message|)..] == message[Whole(|message|)..] + input;
  }

  // ---------- SHA-256 ----------

  class Sha256<S> {
    const f: (S, seq<Byte>) -> S
    const initial: S
    var total0: nat
    var total1: nat
    var state: S
    const buffer: array<Byte>
    ghost var message: seq<Byte>

    constructor (f: (S, seq<Byte>) -> S, initial: S)
      ensures Valid() && Counted() && message == [] && fresh(buffer) && this.f == f && this.initial == initial
    {
      this.f, this.initial, this.state := f, initial, initial;
      total0, total1, message := 0, 0, [];
      buffer := new Byte[BLOCK];
    }

    ghost predicate Valid()
      reads this, buffer
    {
      && Buffered(f, initial, state, buffer, message)
      && total0 < WORD && total1 < WORD && total0 % BLOCK == |message| % BLOCK
    }

    /** The two counters hold the length of the message, modulo 2^64. */
    ghost predicate Counted()
      reads this
    {
      total1 * WORD + total0 == |message| % WORD2
    }

    /** One update call; an input of 2^32 bytes or more is absorbed but counted short. */
    method Update(input: seq<Byte>)
      requires Valid() && |input| < WORD2
      modifies this`total0, this`total1, this`state, this`message, buffer
      ensures Valid() && message == old(message) + input
      ensures old(Counted()) ==> (Counted() <==> |input| < WORD)
    {
      if |input| == 0 {
        assert message + input == message;
        return;
      }
      var left := total0 % BLOCK;
      ghost var n, counted := |message|, Counted();
      CountInput(|input|);
      state := Absorb(f, initial, state, buffer, left, input, message);
      message := message + input;
      AddedMod(n, |input|);
    }

    /** Adds the low 32 bits of the input length, with a carry into the high counter. */
    method CountInput(added: nat)
      requires total0 < WORD && total1 < WORD && added < WORD2
      modifies this`total0, this`total1
      ensures total0 < WORD && total1 < WORD && total0 % BLOCK == (old(total0) % BLOCK + added) % BLOCK
      ensures old(Counted()) ==> (total1 * WORD + total0 == (|message| + added) % WORD2 <==> added < WORD)
    {
      var count := added % WORD;
      CountUp(total0, total1, |message|, added);
      total0 := (total0 + count) % WORD;
      if total0 < count { total1 := (total1 + 1) % WORD; }
    }

    /** Any sequence of updates is one update with the chunks joined. */
    method UpdateAll(chunks: seq<seq<Byte>>)
      requires Valid() && forall i :: 0 <= i < |chunks| ==> |chunks[i]| < WORD
      modifies this`total0, this`total1, this`state, this`message, buffer
      ensures Valid() && message == old(message) + Joined(chunks)
      ensures old(Counted()) ==> Counted()
    {
      var i := 0;
      assert old(message) + [] == message && chunks[..0] == [];
      while i < |chunks|
        invariant 0 <= i <= |chunks| && Valid()
        invariant message == old(message) + Joined(chunks[..i])
        invariant old(Counted()) ==> Counted()
      {
        Update(chunks[i]);
        JoinedSnoc(chunks, i);
        assert (old(message) + Joined(chunks[..i])) + chunks[i] == old(message) + (Joined(chunks[..i]) + chunks[i]);
        i := i + 1;
      }
      assert chunks[..i] == chunks;
    }

    /** The final state is that of the padded message with its length in bits. */
    method Finish() returns (digest: S)
      requires Valid()
      modifies this`state, buffer
      ensures forall length: seq<Byte> :: |length| == 8 && ValueMsb(length) == 8 * (total1 * WORD + total0) % WORD2 ==>
        digest == Fold(f, initial, Padded(message, length))
      ensures Counted() ==> forall length: seq<Byte> :: |length| == 8 && ValueMsb(length) == 8 * |message| % WORD2 ==>
        digest == Fold(f, initial, Padded(message, length))
    {
      hide Fold, Padded, Filler, Word4, ValueMsb, Buffered;
      var high, low := (total0 / 0x2000_0000 + total1 * 8) % WORD, total0 * 8 % WORD;
      ghost var bits := Word4(high) + Word4(low);
      digest := PadAndFold(Word4(high) + Word4(low));
      state := digest;
      BitCount(total0, total1);
      MsbOfWords(high, low);
      if Counted() { BitsWrap(total1 * WORD + total0, |message|); }
      forall length: seq<Byte> | |length| == 8 && ValueMsb(length) == 8 * (total1 * WORD + total0) % WORD2
        ensures length == bits
      {
        MsbUnique(length, bits);
      }
    }

    /** Puts the padding and the length behind the buffered bytes, in one block or in two. */
    method PadAndFold(length: seq<Byte>) returns (digest: S)
      requires Valid() && |length| == 8
      modifies buffer
      ensures digest == Fold(f, initial, Padded(message, length))
    {
      hide Fold, Filler, Padded;
      var used := total0 % BLOCK;
      ghost var r, rest := used, message[Whole(|message|)..];
      assert buffer[..r] == rest;
      buffer[used] := 0x80;
      used := used + 1;
      assert buffer[..used] == rest + [0x80];
      if used <= 56 {
        CopyIn(buffer, used, Zeros(56 - used));
        assert buffer[..56] == rest + [0x80] + Zeros(55 - r);
        CopyIn(buffer, 56, length);
        assert buffer[..] == rest + [0x80] + Zeros(55 - r) + length;
        digest := f(state, buffer[..]);
        OneLastBlock(f, initial, message, length, message[..Whole(|message|)], buffer[..]);
      } else {
        CopyIn(buffer, used, Zeros(BLOCK - used));
        assert buffer[..] == rest + [0x80] + Zeros(63 - r);
        digest := f(state, buffer[..]);
        CopyIn(buffer, 0, Zeros(56));
        CopyIn(buffer, 56, length);
        assert buffer[..] == Zeros(56) + length;
        digest := f(digest, buffer[..]);
        TwoLastBlocks(f, initial, message, length);
      }
    }
  }

  lemma FoldOne<S>(f: (S, seq<Byte>) -> S, s: S, b: seq<Byte>)
    requires |b| == BLOCK
    ensures Fold(f, s, b) == f(s, b)
  {
    assert b[..BLOCK] == b && b[BLOCK..] == [];
  }

  lemma FillerShort(n: nat)
    requires n % BLOCK <= 55
    ensures Filler(n) == [0x80] + Zeros(55 - n % BLOCK)
  {
    ModOf(1, BLOCK, 55 - n % BLOCK);
  }

  lemma FillerLong(n: nat)
    requires n % BLOCK >= 56
    ensures Filler(n) == ([0x80] + Zeros(63 - n % BLOCK)) + Zeros(56)
  {
    ModOf(0, BLOCK, BLOCK + 55 - n % BLOCK);
  }

  lemma Rest(m: seq<Byte>)
    ensures m == m[..Whole(|m|)] + m[Whole(|m|)..]
    ensures |m[Whole(|m|)..]| == |m| % BLOCK
  {
  }

  lemma PaddedShort(m: seq<Byte>, length: seq<Byte>)
    requires |length| == 8 && |m| % BLOCK <= 55
    ensures Padded(m, length) == m[..Whole(|m|)] + (m[Whole(|m|)..] + [0x80] + Zeros(55 - |m| % BLOCK) + length)
  {
    hide Filler, Whole;
    var front, rest := m[..Whole(|m|)], m[Whole(|m|)..];
    var mark: seq<Byte>, zeros := [0x80], Zeros(55 - |m| % BLOCK);
    Rest(m);
    FillerShort(|m|);
    Associate(front, rest, mark + zeros);
    Associate(rest, mark, zeros);
    Associate(front, rest + mark + zeros, length);
  }

  lemma OneLastBlock<S>(f: (S, seq<Byte>) -> S, s: S, m: seq<Byte>, length: seq<Byte>, front: seq<Byte>, last: seq<Byte>)
    requires |length| == 8 && |m| % BLOCK <= 55 && front == m[..Whole(|m|)]
    requires last == m[Whole(|m|)..] + [0x80] + Zeros(55 - |m| % BLOCK) + length
    ensures |front| % BLOCK == 0 && Fold(f, s, Padded(m, length)) == f(Fold(f, s, front), last)
  {
    hide Fold, Filler, Padded;
    PaddedShort(m, length);
    LastLength(m, length, last);
    FoldJoin(f, s, front, last);
    FoldOne(f, Fold(f, s, front), last);
  }

  lemma LastLength(m: seq<Byte>, length: seq<Byte>, last: seq<Byte>)
    requires |length| == 8 && |m| % BLOCK <= 55
    requires last == m[Whole(|m|)..] + [0x80] + Zeros(55 - |m| % BLOCK) + length
    ensures |last| == BLOCK
  {
  }

  lemma TwoLastBlocks<S>(f: (S, seq<Byte>) -> S, s: S, m: seq<Byte>, length: seq<Byte>)
    requires |length| == 8 && |m| % BLOCK >= 56
    ensures var k := Whole(|m|);
      var first, last := m[k..] + [0x80] + Zeros(63 - |m| % BLOCK), Zeros(56) + length;
      Fold(f, s, Padded(m, length)) == f(f(Fold(f, s, m[..k]), first), last)
  {
    hide Fold, Filler, Whole;
    var front, rest := m[..Whole(|m|)], m[Whole(|m|)..];
    var mark: seq<Byte>, zeros := [0x80], Zeros(63 - |m| % BLOCK);
    var first, last := rest + mark + zeros, Zeros(56) + length;
    Rest(m);
    FillerLong(|m|);
    Associate(front, rest, (mark + zeros) + Zeros(56));
    Associate(rest, mark + zeros, Zeros(56));
    Associate(rest, mark, zeros);
    Associate(front, first + Zeros(56), length);
    Associate(first, Zeros(56), length);
    FoldJoin(f, s, front, first + last);
    FoldJoin(f, Fold(f, s, front), first, last);
    FoldOne(f, Fold(f, s, front), first);
    FoldOne(f, f(Fold(f, s, front), first), last);
  }

  lemma AddedMod(n: nat, added: nat)
    ensures (n % BLOCK + added) % BLOCK == (n + added) % BLOCK
  {
    ModAdd(n, added, BLOCK);
  }

  function Joined(chunks: seq<seq<Byte>>): seq<Byte> {
    if chunks == [] then [] else chunks[0] + Joined(chunks[1..])
  }

  lemma {:induction false} JoinedSnoc(chunks: seq<seq<Byte>>, i: nat)
    requires i < |chunks|
    ensures Joined(chunks[..i + 1]) == Joined(chunks[..i]) + chunks[i]
    decreases i
  {
    if i == 0 {
      var first := chunks[..1];
      assert first[0] == chunks[0] && first[1..] == [] && chunks[..0] == [];
      assert chunks[0] + [] == [] + chunks[0];
    } else {
      assert chunks[..i + 1][1..] == chunks[1..][..i] && chunks[..i][1..] == chunks[1..][..i - 1];
      JoinedSnoc(chunks[1..], i - 1);
    }
  }

  lemma WordsOf64(x: int, k: int)
    ensures (x + k * WORD) % BLOCK == x % BLOCK
  {
    var q, r := x / BLOCK, x % BLOCK;
    assert x + k * WORD == (q + k * 0x400_0000) * BLOCK + r;
    ModOf(q + k * 0x400_0000, BLOCK, r);
  }

  /** Adding to two 32-bit counters with a carry is adding modulo 2^64. */
  lemma Carry(total0: nat, total1: nat, count: nat)
    requires total0 < WORD && total1 < WORD && count < WORD
    ensures var low := (total0 + count) % WORD;
      var high := if low < count then (total1 + 1) % WORD else total1;
      high * WORD + low == (total1 * WORD + total0 + count) % WORD2
  {
    var t := total0 + count;
    if t < WORD {
      ModOf(0, WORD, t);
      ModOf(0, WORD2, total1 * WORD + t);
    } else {
      ModOf(1, WORD, t - WORD);
      if total1 + 1 < WORD {
        ModOf(0, WORD2, total1 * WORD + t);
      } else {
        ModOf(1, WORD2, t - WORD);
      }
    }
  }

  /** What the counters become: the low word of the input length is added, the rest of it is lost. */
  lemma CountUp(total0: nat, total1: nat, n: nat, added: nat)
    requires total0 < WORD && total1 < WORD && added < WORD2
    ensures var count := added % WORD;
      var low := (total0 + count) % WORD;
      var high := if low < count then (total1 + 1) % WORD else total1;
      && low % BLOCK == (total0 % BLOCK + added) % BLOCK
      && (total1 * WORD + total0 == n % WORD2 ==> (high * WORD + low == (n + added) % WORD2 <==> added < WORD))
  {
    Carry(total0, total1, added % WORD);
    LowPart(total0, added);
    CountedIff(total1 * WORD + total0, n, added);
  }

  lemma LowPart(total0: nat, added: nat)
    ensures (total0 + added % WORD) % WORD % BLOCK == (total0 % BLOCK + added) % BLOCK
  {
    var sum, h := total0 + added % WORD, added / WORD;
    var t: int := sum / WORD;
    assert added == h * WORD + added % WORD;
    assert sum % WORD == sum + (-t) * WORD;
    WordsOf64(sum, -t);
    WordsOf64(sum, h);
    ModAdd(total0, added, BLOCK);
  }

  /** A count that takes in only the low word is right exactly if there is no other. */
  lemma CountedIff(c: nat, n: nat, added: nat)
    requires added < WORD2
    ensures c == n % WORD2 ==> ((c + added % WORD) % WORD2 == (n + added) % WORD2 <==> added < WORD)
  {
    var count, h := added % WORD, added / WORD;
    assert added == h * WORD + count;
    if c == n % WORD2 {
      ModAdd(n, added, WORD2);
      if (c + count) % WORD2 == (c + added) % WORD2 {
        SmallShift(c + count, h * WORD, WORD2);
        Scaled(h, WORD);
      }
    }
  }

  /** The length field only depends on the byte count modulo 2^64. */
  lemma BitsWrap(count: nat, n: nat)
    requires count == n % WORD2
    ensures 8 * count % WORD2 == 8 * n % WORD2
  {
    var q: int := n / WORD2;
    assert 8 * n == 8 * count + (8 * q) * WORD2;
    ModShift(8 * count, 8 * q, WORD2);
  }

  /** The two words of the bit count, shifted out of those of the byte count. */
  lemma BitCount(total0: nat, total1: nat)
    requires total0 < WORD && total1 < WORD
    ensures (total0 / 0x2000_0000 + total1 * 8) % WORD * WORD + total0 * 8 % WORD == 8 * (total1 * WORD + total0) % WORD2
  {
    var h, r := total0 / 0x2000_0000, total0 % 0x2000_0000;
    var sum := h + total1 * 8;
    var q, high := sum / WORD, sum % WORD;
    assert total0 * 8 == h * WORD + 8 * r;
    ModOf(h, WORD, 8 * r);
    assert 8 * (total1 * WORD + total0) == q * WORD2 + (high * WORD + 8 * r);
    ModOf(q, WORD2, high * WORD + 8 * r);
  }

  // ---------- MD5 ----------

  /** How many bytes an update copies behind `offset` buffered ones; the sum is an int and wraps around. */
  function CopyLength(offset: nat, nbytes: nat): nat
    requires offset < BLOCK && nbytes <= INT_MAX
  {
    var sum := if offset + nbytes <= INT_MAX then offset + nbytes else offset + nbytes - WORD;
    if sum > BLOCK then BLOCK - offset else nbytes
  }

  /** The copy stays inside the block, and fills it as far as it can, exactly as long as the sum does not overflow. */
  lemma CopyFitsIff(offset: nat, nbytes: nat)
    requires offset < BLOCK && nbytes <= 0x7FFF_FFFF
    ensures offset + CopyLength(offset, nbytes) <= BLOCK <==> offset + nbytes <= 0x7FFF_FFFF
    ensures offset + nbytes <= 0x7FFF_FFFF ==>
      CopyLength(offset, nbytes) == if offset + nbytes <= BLOCK then nbytes else BLOCK - offset
  {
  }

  class Md5<S> {
    const f: (S, seq<Byte>) -> S
    const initial: S
    var count0: nat
    var count1: nat
    var abcd: S
    const buf: array<Byte>
    ghost var message: seq<Byte>

    constructor (f: (S, seq<Byte>) -> S, initial: S)
      ensures Valid() && message == [] && fresh(buf) && this.f == f && this.initial == initial
    {
      this.f, this.initial, this.abcd := f, initial, initial;
      count0, count1, message := 0, 0, [];
      buf := new Byte[BLOCK];
    }

    /** The counters hold the number of bits, modulo 2^64. */
    ghost predicate Valid()
      reads this, buf
    {
      && Buffered(f, initial, abcd, buf, message)
      && count0 < WORD && count1 < WORD && count1 * WORD + count0 == 8 * |message| % WORD2
    }

    /** One update call; the buffered bytes and the new ones together must be countable by an int (see CopyFitsIff). */
    method Update(data: seq<Byte>)
      requires Valid() && |message| % BLOCK + |data| <= 0x7FFF_FFFF
      modifies this`count0, this`count1, this`abcd, this`message, buf
      ensures Valid() && message == old(message) + data
    {
      var nbytes := |data|;
      var offset := count0 / 8 % BLOCK;
      if nbytes <= 0 {
        assert message + data == message;
        return;
      }
      OffsetIs(count0, count1, |message|);
      CountBits(nbytes);
      abcd := Absorb(f, initial, abcd, buf, offset, data, message);
      message := message + data;
    }

    /** Adds the number of bits to the two counters. */
    method CountBits(nbytes: nat)
      requires count0 < WORD && count1 < WORD && count1 * WORD + count0 == 8 * |message| % WORD2 && nbytes <= INT_MAX
      modifies this`count0, this`count1
      ensures count0 < WORD && count1 < WORD && count1 * WORD + count0 == 8 * (|message| + nbytes) % WORD2
    {
      var nbits := nbytes * 8 % WORD;
      BitsUp(count0, count1, |message|, nbytes);
      count1 := (count1 + nbytes / 0x2000_0000) % WORD;
      count0 := (count0 + nbits) % WORD;
      if count0 < nbits { count1 := (count1 + 1) % WORD; }
    }

    /** The final state is that of the padded message with its length in bits. */
    method Final() returns (digest: S)
      requires Valid()
      modifies this`count0, this`count1, this`abcd, this`message, buf
      ensures forall length: seq<Byte> :: |length| == 8 && ValueLsb(length) == 8 * old(|message|) % WORD2 ==>
        digest == Fold(f, initial, Padded(old(message), length))
    {
      hide Fold, Filler, Padded, Word4, Reverse4, Zeros, Buffered, ValueLsb;
      ghost var m := message;
      var data := Reverse4(Word4(count0)) + Reverse4(Word4(count1));
      LsbOfWords(count0, count1);
      forall length: seq<Byte> | |length| == 8 && ValueLsb(length) == 8 * |m| % WORD2 ensures length == data {
        LsbUnique(length, data);
      }
      var pad := PadBytes();
      Update(pad);
      Update(data);
      PaddedParts(m, data);
      StateOf(f, initial, abcd, buf, message);
      return abcd;
    }

    /** The first bytes of the padding, as many as are missing to 56 modulo 64. */
    method PadBytes() returns (p: seq<Byte>)
      requires Valid()
      ensures p == Filler(|message|)
    {
      var pad: seq<Byte> := [0x80] + Zeros(63);
      OffsetIs(count0, count1, |message|);
      PadIsFiller(|message|, count0 / 8);
      return pad[..(55 - count0 / 8) % BLOCK + 1];
    }
  }

  lemma PaddedParts(m: seq<Byte>, length: seq<Byte>)
    requires |length| == 8
    ensures Padded(m, length) == m + Filler(|m|) + length
  {
  }

  lemma StateOf<S>(f: (S, seq<Byte>) -> S, initial: S, state: S, buffer: array<Byte>, message: seq<Byte>)
    requires Buffered(f, initial, state, buffer, message) && |message| % BLOCK == 0
    ensures state == Fold(f, initial, message)
  {
    FoldsWhole(f, initial, message);
  }

  lemma FoldsWhole<S>(f: (S, seq<Byte>) -> S, s: S, m: seq<Byte>)
    requires |m| % BLOCK == 0
    ensures Fold(f, s, m[..Whole(|m|)]) == Fold(f, s, m)
  {
    assert m[..|m|] == m;
  }

  /** The number of whole bytes in the low counter, modulo 64. */
  lemma OffsetIs(count0: nat, count1: nat, n: nat)
    requires count0 < WORD && count1 * WORD + count0 == 8 * n % WORD2
    ensures count0 / 8 % BLOCK == n % BLOCK
  {
    var q := 8 * n / WORD2;
    var k := q * 0x80_0000_0000_0000 + count1 * 0x80_0000;
    var x := n - k * BLOCK;
    assert 8 * n == q * WORD2 + count1 * WORD + count0;
    assert count0 == x * 8 + 0;
    DivOf(x, 8, 0);
    ModShift(x, k, BLOCK);
  }

  lemma PadIsFiller(n: nat, x: nat)
    requires x % BLOCK == n % BLOCK
    ensures (55 - x) % BLOCK + 1 == |Filler(n)|
    ensures ([0x80] + Zeros(63))[..(55 - x) % BLOCK + 1] == Filler(n)
  {
    var r, k := x % BLOCK, x / BLOCK;
    assert 55 - x == (BLOCK + 55 - r) + (-k - 1) * BLOCK;
    ModShift(BLOCK + 55 - r, -k - 1, BLOCK);
    var z := (55 - x) % BLOCK;
    assert Zeros(63)[..z] == Zeros(z);
    assert ([0x80] + Zeros(63))[..z + 1] == [0x80] + Zeros(63)[..z];
  }

  lemma BitsUp(count0: nat, count1: nat, n: nat, nbytes: nat)
    requires count0 < WORD && count1 < WORD && count1 * WORD + count0 == 8 * n % WORD2 && nbytes <= INT_MAX
    ensures var nbits := nbytes * 8 % WORD;
      var mid, low := (count1 + nbytes / 0x2000_0000) % WORD, (count0 + nbits) % WORD;
      var high := if low < nbits then (mid + 1) % WORD else mid;
      high * WORD + low == 8 * (n + nbytes) % WORD2
  {
    var h, r := nbytes / 0x2000_0000, nbytes % 0x2000_0000;
    assert nbytes * 8 == h * WORD + 8 * r;
    ModOf(h, WORD, 8 * r);
    var nbits, sum := 8 * r, count1 + h;
    var mid, t := sum % WORD, sum / WORD;
    Carry(count0, mid, nbits);
    var c := count1 * WORD + count0;
    assert mid * WORD + count0 + nbits == (c + 8 * nbytes) + (-t) * WORD2;
    SumWraps(c, n, nbytes, t);
  }

  lemma SumWraps(c: nat, n: nat, nbytes: nat, t: int)
    requires c == 8 * n % WORD2
    ensures ((c + 8 * nbytes) + (-t) * WORD2) % WORD2 == 8 * (n + nbytes) % WORD2
  {
    ModShift(c + 8 * nbytes, -t, WORD2);
    ModAdd(8 * n, 8 * nbytes, WORD2);
  }
}
