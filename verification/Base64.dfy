/** Base64: the encoder, the two passes of the decoder, and how they fit together. */
module Base64 {
  import opened Arithmetic
  import opened Basics

  const PAD: Byte := 61
  const CR: Byte := 13
  const LF: Byte := 10
  const SPACE: Byte := 32
  const SIZE_MAX := 0xFFFF_FFFF_FFFF_FFFF

  // ---------- the alphabet ----------

  /** base64_enc_map: letters, small letters, digits, plus and slash. */
  function EncMap(v: nat): (c: Byte)
    requires v < 64
    ensures c != PAD && c != CR && c != LF && c != SPACE && c < 128
  {
    if v < 26 then 65 + v else if v < 52 then 97 + (v - 26) else if v < 62 then 48 + (v - 52) else if v == 62 then 43 else 47
  }

  /** base64_dec_map: 64 for the padding character, 127 for characters outside the alphabet. */
  function DecMap(c: Byte): (v: nat)
    requires c < 128
    ensures v < 64 || v == 127 || v == 64
    ensures v == 64 <==> c == PAD
  {
    if 65 <= c <= 90 then c - 65
    else if 97 <= c <= 122 then c - 97 + 26
    else if 48 <= c <= 57 then c - 48 + 52
    else if c == 43 then 62
    else if c == 47 then 63
    else if c == PAD then 64
    else 127
  }

  /** The alphabet of section 4 of RFC 4648. */
  const ALPHABET := CAPITALS + SMALL_LETTERS + "0123456789" + "+/"

  lemma EncMapIsAlphabet(v: nat)
    requires v < 64
    ensures |ALPHABET| == 64 && EncMap(v) == ALPHABET[v] as int
  {
    hide CAPITALS, SMALL_LETTERS;
    Letters(if v < 26 then v else if v < 52 then v - 26 else 0);
  }

  function Letter(v: nat): (c: Byte)
    requires v < 64
    ensures c == EncMap(v)
  {
    EncMapIsAlphabet(v);
    ALPHABET[v] as int
  }

  lemma MapsInvert(v: nat)
    requires v < 64
    ensures DecMap(EncMap(v)) == v
  {
  }

  /** Exactly the letters of the alphabet have a value, the place they stand at; only the equals sign pads. */
  lemma DecMapIsAlphabet(c: Byte, v: nat)
    requires c < 128 && v < 64
    ensures DecMap(c) == v <==> c == Letter(v)
    ensures DecMap(c) == 64 <==> c == '=' as int
  {
    hide Letter;
    MapsInvert(v);
  }

  // ---------- encoding ----------

  function Encode(src: seq<Byte>): seq<Byte> {
    if src == [] then []
    else if |src| == 1 then [EncMap(src[0] / 4), EncMap(src[0] % 4 * 16), PAD, PAD]
    else if |src| == 2 then
      [EncMap(src[0] / 4), EncMap(src[0] % 4 * 16 + src[1] / 16), EncMap(src[1] % 16 * 4), PAD]
    else Group(src[0], src[1], src[2]) + Encode(src[3..])
  }

  function Group(a: Byte, b: Byte, c: Byte): (g: seq<Byte>)
    ensures |g| == 4
  {
    [EncMap(a / 4), EncMap(a % 4 * 16 + b / 16), EncMap(b % 16 * 4 + c / 64), EncMap(c % 64)]
  }

  lemma {:induction false} EncodedLength(src: seq<Byte>)
    ensures |Encode(src)| == (|src| + 2) / 3 * 4
    decreases |src|
  {
    hide EncMap;
    if |src| >= 3 {
      EncodedLength(src[3..]);
      assert (|src| + 2) / 3 == (|src[3..]| + 2) / 3 + 1;
    }
  }

  /** Section 4 of RFC 4648: up to three bytes as one number of 24 bits, its digits to base 64, and padding. */
  function Quantum(g: seq<Byte>): seq<Byte>
    requires 1 <= |g| <= 3
  {
    var n: nat := 0x1_0000 * g[0] + (if |g| > 1 then 0x100 * (g[1] as int) else 0) + (if |g| > 2 then g[2] as int else 0);
    var pad: Byte := '=' as int;
    [
      Letter(n / 0x4_0000 % 64),
      Letter(n / 0x1000 % 64),
      if |g| > 1 then Letter(n / 0x40 % 64) else pad,
      if |g| > 2 then Letter(n % 64) else pad
    ]
  }

  function Rfc4648(src: seq<Byte>): seq<Byte> {
    if src == [] then [] else if |src| <= 3 then Quantum(src) else Quantum(src[..3]) + Rfc4648(src[3..])
  }

  lemma QuantumIsGroup(a: Byte, b: Byte, c: Byte)
    ensures Quantum([a, b, c]) == Group(a, b, c)
    ensures Quantum([a, b]) == [EncMap(a / 4), EncMap(a % 4 * 16 + b / 16), EncMap(b % 16 * 4), '=' as int]
    ensures Quantum([a]) == [EncMap(a / 4), EncMap(a % 4 * 16), '=' as int, '=' as int]
  {
    hide EncMap, Letter;
    Sextets(a, b, c);
    Sextets(a, b, 0);
    Sextets(a, 0, 0);
  }

  lemma Sextets(a: Byte, b: Byte, c: Byte)
    ensures var n := 0x1_0000 * a + 0x100 * b + c;
      && n / 0x4_0000 % 64 == a / 4 && n / 0x1000 % 64 == a % 4 * 16 + b / 16
      && n / 0x40 % 64 == b % 16 * 4 + c / 64 && n % 64 == c % 64
  {
    var n := 0x1_0000 * a + 0x100 * b + c;
    var p, q, r, t := a / 4, a % 4 * 16 + b / 16, b % 16 * 4 + c / 64, c % 64;
    assert n == 0x4_0000 * p + 0x1000 * q + 0x40 * r + t;
    assert n / 0x40 == 0x1000 * p + 0x40 * q + r;
    assert n / 0x1000 == 0x40 * p + q;
    assert n / 0x4_0000 == p;
  }

  /** The encoder writes what RFC 4648 says. */
  lemma {:induction false} EncodeIsRfc(src: seq<Byte>)
    ensures Encode(src) == Rfc4648(src)
    decreases |src|
  {
    hide EncMap, Quantum, Group;
    if src != [] {
      var b, c := if |src| > 1 then src[1] else 0, if |src| > 2 then src[2] else 0;
      QuantumIsGroup(src[0], b, c);
      if |src| == 1 {
        assert src == [src[0]];
      } else if |src| == 2 {
        assert src == [src[0], src[1]];
      } else {
        assert src[..3] == [src[0], src[1], src[2]];
        EncodeIsRfc(src[3..]);
        assert |src| == 3 ==> src == src[..3] && src[3..] == [] && Quantum(src) + [] == Quantum(src);
      }
    }
  }

  datatype Status = Done | BufferTooSmall | InvalidCharacter

  method EncodeInto(dst: array?<Byte>, src: seq<Byte>) returns (status: Status, olen: nat)
    modifies dst
    ensures src == [] ==> status == Done && olen == 0
    ensures src != [] && (dst == null || dst.Length < |Encode(src)| + 1) ==> status == BufferTooSmall
    ensures src != [] && dst != null && dst.Length >= |Encode(src)| + 1 && |Encode(src)| < SIZE_MAX ==>
      status == Done && olen == |Encode(src)| && dst[..olen + 1] == Encode(src) + [0]
    ensures status == BufferTooSmall && |Encode(src)| < SIZE_MAX ==> olen == |Encode(src)| + 1
  {
    hide Encode;
    var slen := |src|;
    if slen == 0 { return Done, 0; }
    EncodedLength(src);
    var n := slen / 3 + (if slen % 3 != 0 then 1 else 0);
    if n > (SIZE_MAX - 1) / 4 { return BufferTooSmall, SIZE_MAX; }
    n := n * 4;
    if dst == null || dst.Length < n + 1 { return BufferTooSmall, n + 1; }
    var p := EncodeBody(dst, src);
    ghost var body := dst[..p];
    dst[p] := 0;
    assert dst[..p + 1] == body + [0];
    return Done, p;
  }

  method StoreGroup(dst: array<Byte>, p: nat, c1: Byte, c2: Byte, c3: Byte)
    requires p + 4 <= dst.Length
    modifies dst
    ensures dst[..p + 4] == old(dst[..p]) + Group(c1, c2, c3)
  {
    dst[p] := EncMap(c1 / 4);
    dst[p + 1] := EncMap(c1 % 4 * 16 + c2 / 16);
    dst[p + 2] := EncMap(c2 % 16 * 4 + c3 / 64);
    dst[p + 3] := EncMap(c3 % 64);
    assert dst[p..p + 4] == Group(c1, c2, c3);
    assert dst[..p + 4] == dst[..p] + dst[p..p + 4];
  }

  /** The last one or two bytes, padded. */
  method StoreTail(dst: array<Byte>, p: nat, src: seq<Byte>, i: nat)
    requires p + 4 <= dst.Length && i < |src| < i + 3
    modifies dst
    ensures dst[..p + 4] == old(dst[..p]) + Encode(src[i..])
  {
    var c1 := src[i];
    var c2 := if i + 1 < |src| then src[i + 1] else 0;
    EncodeTail(src, i);
    dst[p] := EncMap(c1 / 4);
    dst[p + 1] := EncMap(c1 % 4 * 16 + c2 / 16);
    dst[p + 2] := if i + 1 < |src| then EncMap(c2 % 16 * 4) else PAD;
    dst[p + 3] := PAD;
    assert dst[p..p + 4] == Encode(src[i..]);
    assert dst[..p + 4] == dst[..p] + dst[p..p + 4];
  }

  method EncodeBody(dst: array<Byte>, src: seq<Byte>) returns (p: nat)
    requires dst.Length >= |Encode(src)| + 1
    modifies dst
    ensures p == |Encode(src)| && dst[..p] == Encode(src)
  {
    hide Encode, Group;
    EncodedLength(src);
    var n, i := |src| / 3 * 3, 0;
    p := 0;
    assert src[0..] == src && dst[..0] + Encode(src) == Encode(src);
    while i < n
      invariant 0 <= i <= n && i % 3 == 0 && p == i / 3 * 4
      invariant dst[..p] + Encode(src[i..]) == Encode(src)
      decreases n - i
    {
      ghost var done, rest := dst[..p], Encode(src[i + 3..]);
      EncodeThree(src, i);
      StoreGroup(dst, p, src[i], src[i + 1], src[i + 2]);
      Associate(done, Group(src[i], src[i + 1], src[i + 2]), rest);
      i, p := i + 3, p + 4;
    }
    if i < |src| {
      StoreTail(dst, p, src, i);
      p := p + 4;
    } else {
      EncodeNothing(src, i);
      assert dst[..p] + [] == dst[..p];
    }
  }

  lemma EncodeNothing(src: seq<Byte>, i: nat)
    requires i == |src|
    ensures Encode(src[i..]) == []
  {
  }

  lemma EncodeThree(src: seq<Byte>, i: nat)
    requires i + 3 <= |src|
    ensures Encode(src[i..]) == Group(src[i], src[i + 1], src[i + 2]) + Encode(src[i + 3..])
  {
    assert src[i..][3..] == src[i + 3..];
  }

  lemma EncodeTail(src: seq<Byte>, i: nat)
    requires i < |src| < i + 3
    ensures |src| == i + 1 ==> Encode(src[i..]) == [EncMap(src[i] / 4), EncMap(src[i] % 4 * 16), PAD, PAD]
    ensures |src| == i + 2 ==>
      Encode(src[i..]) == [EncMap(src[i] / 4), EncMap(src[i] % 4 * 16 + src[i + 1] / 16), EncMap(src[i + 1] % 16 * 4), PAD]
  {
  }

  // ---------- the first pass of the decoder ----------

  function Spaces(src: seq<Byte>, i: nat): (k: nat)
    requires i <= |src|
    ensures i <= k <= |src| && forall m :: i <= m < k ==> src[m] == SPACE
    ensures k < |src| ==> src[k] != SPACE
    decreases |src| - i
  {
    if i < |src| && src[i] == SPACE then Spaces(src, i + 1) else i
  }

  predicate LineEnd(src: seq<Byte>, k: nat)
    requires k < |src|
  {
    src[k] == LF || (k + 1 < |src| && src[k] == CR && src[k + 1] == LF)
  }

  /** The number of significant characters and of padding characters; none for an invalid text. */
  function Check(src: seq<Byte>, i: nat, n: nat, j: nat): (r: Option<(nat, nat)>)
    requires i <= |src|
    decreases |src| - i
  {
    var k := Spaces(src, i);
    if k == |src| then Some((n, j))
    else if LineEnd(src, k) then Check(src, k + 1, n, j)
    else if k > i then None
    else if src[k] == PAD then (if j + 1 > 2 then None else Check(src, k + 1, n + 1, j + 1))
    else if src[k] > 127 || DecMap(src[k]) == 127 || j != 0 then None
    else Check(src, k + 1, n + 1, j)
  }

  method FirstPass(src: seq<Byte>) returns (r: Option<(nat, nat)>)
    ensures r == Check(src, 0, 0, 0)
  {
    var i, n, j := 0, 0, 0;
    while i < |src|
      invariant 0 <= i <= |src| && 0 <= n && 0 <= j
      invariant Check(src, i, n, j) == Check(src, 0, 0, 0)
      decreases |src| - i
    {
      ghost var start := i;
      var x := 0;
      while i < |src| && src[i] == SPACE
        invariant start <= i <= |src| && x == i - start
        invariant Spaces(src, i) == Spaces(src, start)
      {
        i, x := i + 1, x + 1;
      }
      if i == |src| { break; }
      if |src| - i >= 2 && src[i] == CR && src[i + 1] == LF { i := i + 1; continue; }
      if src[i] == LF { i := i + 1; continue; }
      if x != 0 { return None; }
      if src[i] == PAD {
        j := j + 1;
        if j > 2 { return None; }
      }
      if src[i] > 127 || DecMap(src[i]) == 127 { return None; }
      if DecMap(src[i]) < 64 && j != 0 { return None; }
      n, i := n + 1, i + 1;
    }
    return Some((n, j));
  }

  // ---------- the second pass ----------

  const WORD := 0x1_0000_0000

  predicate Skipped(c: Byte) { c == CR || c == LF || c == SPACE }

  function Significant(src: seq<Byte>): seq<Byte> {
    if src == [] then [] else if Skipped(src[0]) then Significant(src[1..]) else [src[0]] + Significant(src[1..])
  }

  /** Six more bits for the 32-bit accumulator. */
  function Shift(x: nat, c: Byte): (y: nat)
    requires x < WORD && c < 128
    ensures y < WORD
  {
    (x * 64 + DecMap(c) % 64) % WORD
  }

  function Pads(c: Byte): nat { if c == PAD then 1 else 0 }

  /** The bytes of a complete group; `j` says how many of them count. */
  function Bytes(x: nat, j: int): (b: seq<Byte>)
    ensures |b| == if j > 2 then 3 else if j > 1 then 2 else if j > 0 then 1 else 0
  {
    (if j > 0 then [x / 0x1_0000 % 0x100] else []) + (if j > 1 then [x / 0x100 % 0x100] else []) + (if j > 2 then [x % 0x100] else [])
  }

  predicate InAlphabet(cs: seq<Byte>) { forall i :: 0 <= i < |cs| ==> cs[i] < 128 }

  /** What the second pass writes for the significant characters; `k` of the current group have been read. */
  function Emit(cs: seq<Byte>, x: nat, k: nat, j: int): seq<Byte>
    requires x < WORD && k < 4 && InAlphabet(cs)
    decreases |cs|
  {
    if cs == [] then []
    else
      var y, m := Shift(x, cs[0]), j - Pads(cs[0]);
      if k == 3 then Bytes(y, m) + Emit(cs[1..], y, 0, m) else Emit(cs[1..], y, k + 1, m)
  }

  // ---------- what the first pass makes sure of ----------

  /** Characters of the alphabet, then padding. */
  predicate Proper(cs: seq<Byte>, j: nat) {
    && j <= |cs| && InAlphabet(cs)
    && (forall i :: 0 <= i < |cs| - j ==> DecMap(cs[i]) < 64)
    && (forall i :: |cs| - j <= i < |cs| ==> cs[i] == PAD)
  }

  lemma {:induction false} BlanksVanish(src: seq<Byte>, i: nat, k: nat)
    requires i <= k <= |src| && forall m :: i <= m < k ==> Skipped(src[m])
    ensures Significant(src[i..]) == Significant(src[k..])
    decreases k - i
  {
    if i < k {
      assert src[i..][1..] == src[i + 1..];
      BlanksVanish(src, i + 1, k);
    }
  }

  lemma OneSignificant(src: seq<Byte>, k: nat)
    requires k < |src| && !Skipped(src[k])
    ensures Significant(src[k..]) == [src[k]] + Significant(src[k + 1..])
  {
    assert src[k..][1..] == src[k + 1..];
  }

  /** The counts `n` and `j` have grown to those of `r` by the characters `cs`. */
  predicate Counted(cs: seq<Byte>, n: nat, j: nat, r: (nat, nat)) {
    && j <= r.1 <= 2 && r.0 == n + |cs| && Proper(cs, r.1 - j)
    && (j > 0 ==> r.1 - j == |cs|)
  }

  /** A valid text consists of proper characters, at most two of them padding, and skipped ones. */
  lemma {:induction false} CheckedIsProper(src: seq<Byte>, i: nat, n: nat, j: nat)
    requires i <= |src| && j <= 2 && Check(src, i, n, j).Some?
    ensures Counted(Significant(src[i..]), n, j, Check(src, i, n, j).value)
    decreases |src| - i
  {
    hide DecMap, Check, Proper, Significant, Counted;
    var k := Spaces(src, i);
    BlanksVanish(src, i, k);
    CheckEnd(src, i, n, j);
    if k == |src| {
      NothingLeft(src, k, n, j);
    } else if LineEnd(src, k) {
      BlanksVanish(src, k, k + 1);
      CheckedIsProper(src, k + 1, n, j);
    } else {
      CheckOne(src, i, n, j);
      OneSignificant(src, k);
      CheckedIsProper(src, k + 1, n + 1, j + Pads(src[k]));
      CountOne(src[k], Significant(src[k + 1..]), n, j, Check(src, i, n, j).value);
    }
  }

  lemma CountOne(c: Byte, cs: seq<Byte>, n: nat, j: nat, r: (nat, nat))
    requires c < 128 && Counted(cs, n + 1, j + Pads(c), r) && (c == PAD || (DecMap(c) < 64 && j == 0))
    ensures Counted([c] + cs, n, j, r)
  {
    ProperOne(c, cs, r.1 - j - Pads(c));
  }

  lemma NothingLeft(src: seq<Byte>, k: nat, n: nat, j: nat)
    requires k == |src| && j <= 2
    ensures Counted(Significant(src[k..]), n, j, (n, j))
  {
  }

  lemma CheckEnd(src: seq<Byte>, i: nat, n: nat, j: nat)
    requires i <= |src|
    ensures var k := Spaces(src, i);
      && (k == |src| ==> Check(src, i, n, j) == Some((n, j)))
      && (k < |src| && LineEnd(src, k) ==> Check(src, i, n, j) == Check(src, k + 1, n, j))
  {
  }

  lemma CheckOne(src: seq<Byte>, i: nat, n: nat, j: nat)
    requires i <= |src| && j <= 2 && Check(src, i, n, j).Some?
    requires var k := Spaces(src, i); k < |src| && !LineEnd(src, k)
    ensures var k := Spaces(src, i);
      && src[k] < 128 && !Skipped(src[k]) && j + Pads(src[k]) <= 2
      && (src[k] == PAD || (DecMap(src[k]) < 64 && j == 0))
      && Check(src, i, n, j) == Check(src, k + 1, n + 1, j + Pads(src[k]))
  {
  }

  lemma ProperOne(c: Byte, cs: seq<Byte>, j: nat)
    requires c < 128 && Proper(cs, j) && (if c == PAD then j == |cs| else DecMap(c) < 64)
    ensures Proper([c] + cs, j + Pads(c))
  {
  }

  // ---------- the length formula ----------

  /** The formula that avoids overflow, and the one it stands for. */
  function OutputLength(n: nat, j: nat): int { 6 * (n / 8) + (6 * (n % 8) + 7) / 8 - j }

  lemma LengthFormula(n: nat, j: nat)
    ensures OutputLength(n, j) == (6 * n + 7) / 8 - j
  {
    var q, r := n / 8, n % 8;
    assert 6 * n + 7 == 8 * (6 * q) + (6 * r + 7);
  }

  predicate Values(a: seq<Byte>) {
    forall i :: 0 <= i < |a| ==> a[i] < 128 && DecMap(a[i]) < 64
  }

  /** Values before the padding: three bytes for each complete group. */
  lemma {:induction false} EmitValues(a: seq<Byte>, rest: seq<Byte>, x: nat, k: nat) returns (y: nat)
    requires x < WORD && k < 4 && Values(a) && InAlphabet(rest)
    ensures y < WORD && InAlphabet(a + rest)
    ensures |Emit(a + rest, x, k, 3)| == (k + |a|) / 4 * 3 + |Emit(rest, y, (k + |a|) % 4, 3)|
    decreases |a|
  {
    hide Emit, Shift, DecMap, Bytes;
    if a == [] {
      y := x;
      assert a + rest == rest;
    } else {
      var others := a[1..];
      assert (a + rest)[1..] == others + rest && (a + rest)[0] == a[0];
      assert a[0] < 128 && DecMap(a[0]) < 64;
      EmitOne(a + rest, x, k, 3);
      y := EmitValues(others, rest, Shift(x, a[0]), (k + 1) % 4);
      GroupCount(k, |others|);
    }
  }

  lemma GroupCount(k: nat, n: nat)
    requires k < 4
    ensures ((k + 1) % 4 + n) % 4 == (k + (n + 1)) % 4
    ensures (if k == 3 then 3 else 0) + ((k + 1) % 4 + n) / 4 * 3 == (k + (n + 1)) / 4 * 3
  {
  }

  lemma EmitOne(cs: seq<Byte>, x: nat, k: nat, j: int)
    requires cs != [] && x < WORD && k < 4 && InAlphabet(cs)
    ensures var y, m := Shift(x, cs[0]), j - Pads(cs[0]);
      Emit(cs, x, k, j) == if k == 3 then Bytes(y, m) + Emit(cs[1..], y, 0, m) else Emit(cs[1..], y, k + 1, m)
  {
  }

  /** The second pass writes no more than the length computed before, for every text the first pass accepts. */
  lemma NeverTooLong(src: seq<Byte>)
    requires Check(src, 0, 0, 0).Some?
    ensures var (n, j) := Check(src, 0, 0, 0).value;
      var cs := Significant(src);
      && n == |cs| && InAlphabet(cs)
      && 0 <= |Emit(cs, 0, 0, 3)| <= OutputLength(n, j)
  {
    hide Check, Significant;
    CheckedIsProper(src, 0, 0, 0);
    assert src[0..] == src;
    var (n, j) := Check(src, 0, 0, 0).value;
    var cs := Significant(src);
    ProperLength(cs, j);
  }

  lemma PadsEmit(rest: seq<Byte>, y: nat, k: nat)
    requires y < WORD && k < 4 && rest in {[], [PAD], [PAD, PAD]}
    ensures InAlphabet(rest)
    ensures |Emit(rest, y, k, 3)| ==
      if |rest| == 1 && k == 3 then 2 else if |rest| == 2 && k == 3 then 2 else if |rest| == 2 && k == 2 then 1 else 0
  {
    if |rest| == 1 {
      OnePad(y, k, 3);
    } else if |rest| == 2 {
      assert [PAD, PAD][1..] == [PAD];
      OnePad(Shift(y, PAD), (k + 1) % 4, 2);
    }
  }

  lemma OnePad(y: nat, k: nat, j: int)
    requires y < WORD && k < 4
    ensures |Emit([PAD], y, k, j)| == if k == 3 then |Bytes(0, j - 1)| else 0
  {
    assert [PAD][1..] == [];
  }

  lemma ProperLength(cs: seq<Byte>, j: nat)
    requires Proper(cs, j) && j <= 2
    ensures 0 <= |Emit(cs, 0, 0, 3)| <= OutputLength(|cs|, j)
  {
    var a, rest := cs[..|cs| - j], cs[|cs| - j..];
    assert cs == a + rest;
    assert rest == if j == 0 then [] else if j == 1 then [PAD] else [PAD, PAD];
    var y := EmitValues(a, rest, 0, 0);
    PadsEmit(rest, y, |a| % 4);
    LengthFormula(|cs|, j);
    var q, r := |a| / 4, |a| % 4;
    assert |cs| == 4 * q + r + j;
    assert (6 * |cs| + 7) / 8 == 3 * q + (6 * (r + j) + 7) / 8;
  }

  // ---------- round trip ----------

  /** 2^24 divides 2^32: the low bits of the accumulator are those of the last characters. */
  lemma LowBits(x: nat, v: nat, p: nat)
    requires v < 64 && p in {1, 0x40, 0x1000, 0x4_0000}
    ensures ((x * 64 + v) % WORD) % (64 * p) == 64 * (x % p) + v
  {
    var t := x * 64 + v;
    var q, y := t / WORD, t % WORD;
    assert t == q * WORD + y;
    if p == 1 { Wrap(x, v, q, y, 1, 0x400_0000); }
    else if p == 0x40 { Wrap(x, v, q, y, 0x40, 0x10_0000); }
    else if p == 0x1000 { Wrap(x, v, q, y, 0x1000, 0x4000); }
    else { Wrap(x, v, q, y, 0x4_0000, 0x100); }
  }

  lemma Wrap(x: nat, v: nat, q: nat, y: nat, p: nat, w: nat)
    requires v < 64 && p > 0 && x * 64 + v == q * (64 * p * w) + y
    ensures y % (64 * p) == 64 * (x % p) + v
  {
    var m, a := 64 * p, x / p;
    var r := 64 * (x % p) + v;
    assert x == p * a + x % p;
    assert x * 64 == m * a + 64 * (x % p);
    assert q * (m * w) == m * (q * w);
    assert y == (a - q * w) * m + r;
    ModOf(a - q * w, m, r);
  }

  lemma ShiftLow(x: nat, c: Byte, p: nat, m: nat)
    requires x < WORD && c < 128 && DecMap(c) < 64 && p in {1, 0x40, 0x1000, 0x4_0000} && m == 64 * p
    ensures Shift(x, c) % m == 64 * (x % p) + DecMap(c)
  {
    LowBits(x, DecMap(c), p);
  }

  /** The accumulator after four more values, as far as it counts. */
  lemma Accumulate(x: nat, g: seq<Byte>) returns (y: nat)
    requires x < WORD && |g| == 4 && Values(g)
    ensures y < WORD && y == Shift(Shift(Shift(Shift(x, g[0]), g[1]), g[2]), g[3])
    ensures y % 0x100_0000 ==
      DecMap(g[0]) * 0x4_0000 + DecMap(g[1]) * 0x1000 + DecMap(g[2]) * 0x40 + DecMap(g[3])
  {
    hide Shift, DecMap;
    var x1 := Shift(x, g[0]);
    var x2 := Shift(x1, g[1]);
    var x3 := Shift(x2, g[2]);
    y := Shift(x3, g[3]);
    ShiftLow(x, g[0], 1, 0x40);
    ShiftLow(x1, g[1], 0x40, 0x1000);
    ShiftLow(x2, g[2], 0x1000, 0x4_0000);
    ShiftLow(x3, g[3], 0x4_0000, 0x100_0000);
    assert x % 1 == 0;
  }

  /** Four characters of a complete group give its three bytes, whatever the accumulator holds. */
  lemma GroupDecodes(a: Byte, b: Byte, c: Byte, x: nat) returns (y: nat)
    requires x < WORD
    ensures Values(Group(a, b, c)) && y < WORD
    ensures var g := Group(a, b, c); y == Shift(Shift(Shift(Shift(x, g[0]), g[1]), g[2]), g[3])
    ensures Bytes(y, 3) == [a, b, c]
  {
    var g := Group(a, b, c);
    MapsInvert(a / 4);
    MapsInvert(a % 4 * 16 + b / 16);
    MapsInvert(b % 16 * 4 + c / 64);
    MapsInvert(c % 64);
    y := Accumulate(x, g);
    assert y % 0x100_0000 == a * 0x1_0000 + b * 0x100 + c;
    ThreeBytes(y, a, b, c);
  }

  lemma ThreeBytes(y: nat, a: Byte, b: Byte, c: Byte)
    requires y % 0x100_0000 == a as int * 0x1_0000 + b as int * 0x100 + c as int
    ensures y / 0x1_0000 % 0x100 == a && y / 0x100 % 0x100 == b && y % 0x100 == c
  {
    var q := y / 0x100_0000;
    var ai, bi, ci := a as int, b as int, c as int;
    assert y == (q * 0x100 + ai) * 0x1_0000 + (bi * 0x100 + ci);
    DivOf(q * 0x100 + ai, 0x1_0000, bi * 0x100 + ci);
    ModOf(q, 0x100, ai);
    assert y == (q * 0x1_0000 + ai * 0x100 + bi) * 0x100 + ci;
    DivOf(q * 0x1_0000 + ai * 0x100 + bi, 0x100, ci);
    assert q * 0x1_0000 + ai * 0x100 + bi == (q * 0x100 + ai) * 0x100 + bi;
    ModOf(q * 0x100 + ai, 0x100, bi);
    ModOf(q * 0x1_0000 + ai * 0x100 + bi, 0x100, ci);
  }

  lemma FourSteps(g: seq<Byte>, rest: seq<Byte>, x: nat)
    requires x < WORD && |g| == 4 && InAlphabet(g) && InAlphabet(rest) && g[0] != PAD && g[1] != PAD
    ensures var y, j := Shift(Shift(Shift(Shift(x, g[0]), g[1]), g[2]), g[3]), 3 - Pads(g[2]) - Pads(g[3]);
      InAlphabet(g + rest) && Emit(g + rest, x, 0, 3) == Bytes(y, j) + Emit(rest, y, 0, j)
  {
    hide Emit, Shift, DecMap, Bytes;
    var s0 := g + rest;
    var s1, s2, s3 := s0[1..], s0[2..], s0[3..];
    assert s1[1..] == s2 && s2[1..] == s3 && s3[1..] == rest;
    var x1 := Shift(x, g[0]);
    var x2 := Shift(x1, g[1]);
    var x3 := Shift(x2, g[2]);
    var y := Shift(x3, g[3]);
    var m2 := 3 - Pads(g[2]);
    EmitOne(s0, x, 0, 3);
    EmitOne(s1, x1, 1, 3);
    EmitOne(s2, x2, 2, 3);
    EmitOne(s3, x3, 3, m2);
  }

  lemma {:induction false} EncodeInAlphabet(src: seq<Byte>)
    ensures InAlphabet(Encode(src))
    decreases |src|
  {
    if |src| >= 3 { EncodeInAlphabet(src[3..]); }
  }

  /** Padding shifts in zero bits, as the character for 0 does. */
  lemma PadShift(x: nat)
    requires x < WORD
    ensures Shift(x, PAD) == Shift(x, EncMap(0))
  {
  }

  /** The last group: one or two padding characters, two bytes or one. */
  lemma TailDecodes(src: seq<Byte>, x: nat)
    requires x < WORD && 1 <= |src| <= 2
    ensures InAlphabet(Encode(src)) && Emit(Encode(src), x, 0, 3) == src
  {
    hide Emit, Shift, DecMap, EncMap, Bytes;
    var cs := Encode(src);
    var b: Byte := if |src| == 2 then src[1] else 0;
    var g := Group(src[0], b, 0);
    var y := GroupDecodes(src[0], b, 0, x);
    EncodeTail(src, 0);
    assert src[0..] == src && b % 16 * 4 + 0 / 64 == b % 16 * 4;
    PadShift(Shift(Shift(x, g[0]), g[1]));
    PadShift(Shift(Shift(Shift(x, g[0]), g[1]), g[2]));
    FourSteps(cs, [], x);
    assert cs + [] == cs;
    EmitNothing(y, 3 - Pads(cs[2]) - Pads(cs[3]));
    FewerBytes(y);
  }

  lemma EmitNothing(y: nat, j: int)
    requires y < WORD
    ensures Emit([], y, 0, j) == []
  {
  }

  lemma FewerBytes(y: nat)
    ensures Bytes(y, 2) == Bytes(y, 3)[..2] && Bytes(y, 1) == Bytes(y, 3)[..1]
  {
  }

  /** The second pass undoes the encoder. */
  lemma {:induction false} EmitEncoded(src: seq<Byte>, x: nat)
    requires x < WORD
    ensures InAlphabet(Encode(src)) && Emit(Encode(src), x, 0, 3) == src
    decreases |src|
  {
    if src == [] {
    } else if |src| <= 2 {
      TailDecodes(src, x);
    } else {
      hide Emit, Shift, DecMap, EncMap, Bytes;
      var g, rest := Group(src[0], src[1], src[2]), src[3..];
      var y := GroupDecodes(src[0], src[1], src[2], x);
      EncodeInAlphabet(rest);
      FourSteps(g, Encode(rest), x);
      EmitEncoded(rest, y);
      assert src == [src[0], src[1], src[2]] + rest;
    }
  }

  // ---------- which texts are valid ----------

  /** A character, or a line end of either kind with blanks in front. */
  datatype Item = Char(c: Byte) | LineFeed(blanks: nat) | CarriageReturnLineFeed(blanks: nat)

  function Blanks(n: nat): seq<Byte> {
    if n == 0 then [] else [' ' as int] + Blanks(n - 1)
  }

  /** The text of such items, and blanks at its end. */
  function Spell(items: seq<Item>, tail: nat): seq<Byte> {
    if items == [] then Blanks(tail)
    else
      var rest := Spell(items[1..], tail);
      match items[0]
      case Char(c) => [c] + rest
      case LineFeed(blanks) => Blanks(blanks) + (['\n' as int] + rest)
      case CarriageReturnLineFeed(blanks) => Blanks(blanks) + (['\r' as int] + (['\n' as int] + rest))
  }

  function Strip(items: seq<Item>): seq<Byte> {
    if items == [] then [] else (if items[0].Char? then [items[0].c] else []) + Strip(items[1..])
  }

  /** Values and at most two padding characters at the end. */
  predicate Sound(cs: seq<Byte>, j: nat) {
    if cs == [] then j <= 2
    else cs[0] < 128 && (if cs[0] == PAD then j < 2 && Sound(cs[1..], j + 1) else DecMap(cs[0]) < 64 && j == 0 && Sound(cs[1..], 0))
  }

  function PadCount(cs: seq<Byte>): nat { if cs == [] then 0 else Pads(cs[0]) + PadCount(cs[1..]) }

  lemma FirstChar(items: seq<Item>, tail: nat)
    requires items != [] && items[0].Char?
    ensures Strip(items) == [items[0].c] + Strip(items[1..]) && Spell(items, tail) == [items[0].c] + Spell(items[1..], tail)
    ensures PadCount(Strip(items)) == Pads(items[0].c) + PadCount(Strip(items[1..]))
  {
    assert Strip(items)[1..] == Strip(items[1..]);
  }

  lemma SoundFirst(c: Byte, cs: seq<Byte>, j: nat)
    ensures Sound([c] + cs, j)
      <==> c < 128 && ((c == PAD && j < 2 && Sound(cs, j + 1)) || (DecMap(c) < 64 && j == 0 && Sound(cs, 0)))
    ensures Sound([c] + cs, j) ==> !Skipped(c)
  {
    assert ([c] + cs)[1..] == cs;
  }

  lemma SoundBound(cs: seq<Byte>, j: nat)
    requires Sound(cs, j)
    ensures j <= 2
  {
  }

  /** From `i` on the text is `t`. */
  predicate At(src: seq<Byte>, i: nat, t: seq<Byte>) {
    i <= |src| && src[i..] == t
  }

  lemma AtNext(src: seq<Byte>, i: nat, c: Byte, t: seq<Byte>)
    requires i < |src|
    ensures At(src, i, [c] + t) <==> src[i] == c && At(src, i + 1, t)
  {
    assert src[i..] == [src[i]] + src[i + 1..];
    if At(src, i, [c] + t) { assert ([c] + t)[0] == c && ([c] + t)[1..] == t; }
  }

  lemma AtInside(src: seq<Byte>, i: nat, t: seq<Byte>)
    requires At(src, i, t) && t != []
    ensures i < |src|
  {
  }

  lemma {:induction false} BlanksAt(src: seq<Byte>, i: nat, n: nat, rest: seq<Byte>)
    requires At(src, i, Blanks(n) + rest) && (rest == [] || rest[0] != ' ' as int)
    ensures At(src, i + n, rest) && Spaces(src, i) == i + n
    decreases n
  {
    var t := Blanks(n) + rest;
    if n == 0 {
      assert t == rest;
      if rest != [] { assert src[i] == src[i..][0]; }
    } else {
      assert t == [' ' as int] + (Blanks(n - 1) + rest);
      AtInside(src, i, t);
      AtNext(src, i, ' ' as int, Blanks(n - 1) + rest);
      BlanksAt(src, i + 1, n - 1, rest);
    }
  }

  lemma {:induction false} SpacesAreBlanks(src: seq<Byte>, i: nat, rest: seq<Byte>)
    requires i <= |src| && At(src, Spaces(src, i), rest)
    ensures At(src, i, Blanks(Spaces(src, i) - i) + rest)
    decreases |src| - i
  {
    if i < |src| && src[i] == SPACE {
      SpacesAreBlanks(src, i + 1, rest);
      var k := Spaces(src, i) - i;
      AtNext(src, i, SPACE, Blanks(k - 1) + rest);
      assert Blanks(k) + rest == [SPACE] + (Blanks(k - 1) + rest);
    } else {
      assert Blanks(0) + rest == rest;
    }
  }

  /** One round of the first pass, told by the first character that is no space. */
  lemma CheckAt(src: seq<Byte>, i: nat, k: nat, n: nat, j: nat)
    requires i <= |src| && k == Spaces(src, i)
    ensures k == |src| ==> Check(src, i, n, j) == Some((n, j))
    ensures k < |src| && LineEnd(src, k) ==> Check(src, i, n, j) == Check(src, k + 1, n, j)
    ensures k < |src| && !LineEnd(src, k) && (k > i || (src[k] == PAD && j >= 2)) ==> Check(src, i, n, j) == None
    ensures k < |src| && !LineEnd(src, k) && k == i && src[k] == PAD && j < 2 ==>
      Check(src, i, n, j) == Check(src, k + 1, n + 1, j + 1)
    ensures k < |src| && !LineEnd(src, k) && k == i && src[k] != PAD ==>
      Check(src, i, n, j) == if src[k] > 127 || DecMap(src[k]) == 127 || j != 0 then None else Check(src, k + 1, n + 1, j)
  {
  }

  lemma CheckLineEnd(src: seq<Byte>, i: nat, k: nat, n: nat, j: nat)
    requires i <= |src| && k == Spaces(src, i) && k < |src| && LineEnd(src, k)
    ensures Check(src, i, n, j) == Check(src, k + 1, n, j)
  {
    hide Check, DecMap;
    CheckAt(src, i, k, n, j);
  }

  /** The line feed of a line end at `k`, perhaps behind a carriage return. */
  lemma CheckLineFeed(src: seq<Byte>, k: nat, n: nat, j: nat)
    requires k < |src| && src[k] == LF
    ensures Check(src, k, n, j) == Check(src, k + 1, n, j)
  {
    hide Check, DecMap;
    assert Spaces(src, k) == k;
    CheckLineEnd(src, k, k, n, j);
  }

  lemma CheckChar(src: seq<Byte>, i: nat, n: nat, j: nat)
    requires i < |src| && src[i] < 128 && ((src[i] == PAD && j < 2) || (DecMap(src[i]) < 64 && j == 0))
    ensures Check(src, i, n, j) == Check(src, i + 1, n + 1, j + Pads(src[i]))
  {
    hide Check;
    assert Spaces(src, i) == i && !LineEnd(src, i);
    CheckAt(src, i, i, n, j);
  }

  lemma CheckTail(src: seq<Byte>, i: nat, tail: nat, n: nat, j: nat)
    requires At(src, i, Blanks(tail))
    ensures Check(src, i, n, j) == Some((n, j)) && Significant(src[i..]) == []
  {
    hide Check, Blanks;
    assert Blanks(tail) + [] == Blanks(tail);
    BlanksAt(src, i, tail, []);
    CheckAt(src, i, i + tail, n, j);
    BlanksVanish(src, i, i + tail);
  }

  /** A line end with blanks in front of it. */
  lemma CheckLine(src: seq<Byte>, i: nat, blanks: nat, cr: bool, rest: seq<Byte>, n: nat, j: nat)
    requires var feed := ['\n' as int] + rest;
      At(src, i, Blanks(blanks) + if cr then ['\r' as int] + feed else feed)
    ensures var e := i + blanks + if cr then 2 else 1;
      At(src, e, rest) && Check(src, i, n, j) == Check(src, e, n, j) && Significant(src[i..]) == Significant(src[e..])
  {
    hide Check, Blanks, At, Significant, Spaces, DecMap;
    var feed, k := ['\n' as int] + rest, i + blanks;
    var line := if cr then ['\r' as int] + feed else feed;
    BlanksAt(src, i, blanks, line);
    AtInside(src, k, line);
    if cr {
      AtNext(src, k, '\r' as int, feed);
      AtInside(src, k + 1, feed);
      AtNext(src, k + 1, '\n' as int, rest);
      CheckLineFeed(src, k + 1, n, j);
    } else {
      AtNext(src, k, '\n' as int, rest);
    }
    CheckLineEnd(src, i, k, n, j);
    BlanksVanish(src, i, if cr then k + 2 else k + 1);
  }

  lemma {:induction false} CheckSpelled(src: seq<Byte>, i: nat, items: seq<Item>, tail: nat, n: nat, j: nat)
    requires At(src, i, Spell(items, tail)) && Sound(Strip(items), j)
    ensures i <= |src| && Check(src, i, n, j) == Some((n + |Strip(items)|, j + PadCount(Strip(items))))
    ensures Significant(src[i..]) == Strip(items)
    decreases items
  {
    hide At, Check, DecMap, Sound, PadCount, Significant, Blanks;
    AtStart(src, i, Spell(items, tail));
    if items == [] {
      CheckTail(src, i, tail, n, j);
      SoundBound(Strip(items), j);
      NoPads();
    } else if items[0].Char? {
      var c, rest := items[0].c, Spell(items[1..], tail);
      FirstChar(items, tail);
      SoundFirst(c, Strip(items[1..]), j);
      AtInside(src, i, [c] + rest);
      AtNext(src, i, c, rest);
      CheckChar(src, i, n, j);
      OneSignificant(src, i);
      CheckSpelled(src, i + 1, items[1..], tail, n + 1, j + Pads(c));
    } else {
      var cr := items[0].CarriageReturnLineFeed?;
      CheckLine(src, i, items[0].blanks, cr, Spell(items[1..], tail), n, j);
      NoChar(items);
      CheckSpelled(src, i + items[0].blanks + (if cr then 2 else 1), items[1..], tail, n, j);
    }
  }

  lemma AtStart(src: seq<Byte>, i: nat, t: seq<Byte>)
    requires At(src, i, t)
    ensures i <= |src|
  {
  }

  lemma NoPads()
    ensures PadCount([]) == 0
  {
  }

  lemma NoChar(items: seq<Item>)
    requires items != [] && !items[0].Char?
    ensures Strip(items) == Strip(items[1..])
  {
  }

  /** Whatever the first pass lets through is such a text. */
  lemma {:induction false} CheckedIsSpelled(src: seq<Byte>, i: nat, n: nat, j: nat) returns (items: seq<Item>, tail: nat)
    requires i <= |src| && j <= 2 && Check(src, i, n, j).Some?
    ensures At(src, i, Spell(items, tail)) && Sound(Strip(items), j)
    decreases |src| - i
  {
    hide At, Check, DecMap, Sound, Blanks;
    var k := Spaces(src, i);
    CheckAt(src, i, k, n, j);
    if k == |src| {
      AtEnd(src, k);
      SpacesAreBlanks(src, i, []);
      items, tail := [], k - i;
      assert Blanks(tail) + [] == Blanks(tail);
      SoundNothing(j);
    } else if src[k] == LF {
      var rest;
      rest, tail := CheckedIsSpelled(src, k + 1, n, j);
      items := [LineFeed(k - i)] + rest;
      AtNext(src, k, LF, Spell(rest, tail));
      SpacesAreBlanks(src, i, [LF] + Spell(rest, tail));
      NoChar(items);
    } else if LineEnd(src, k) {
      CheckLineFeed(src, k + 1, n, j);
      var rest;
      rest, tail := CheckedIsSpelled(src, k + 2, n, j);
      items := [CarriageReturnLineFeed(k - i)] + rest;
      AtNext(src, k + 1, LF, Spell(rest, tail));
      AtNext(src, k, CR, [LF] + Spell(rest, tail));
      SpacesAreBlanks(src, i, [CR] + ([LF] + Spell(rest, tail)));
      NoChar(items);
    } else {
      var rest;
      rest, tail := CheckedIsSpelled(src, k + 1, n + 1, j + Pads(src[k]));
      items := [Char(src[k])] + rest;
      AtNext(src, k, src[k], Spell(rest, tail));
      FirstChar(items, tail);
      SoundFirst(src[k], Strip(rest), j);
    }
  }

  lemma AtEnd(src: seq<Byte>, i: nat)
    requires i == |src|
    ensures At(src, i, [])
  {
  }

  lemma SoundNothing(j: nat)
    requires j <= 2
    ensures Sound(Strip([]), j)
  {
  }

  /** Sound characters with line ends anywhere between them, and blanks only in front of line ends and at the end. */
  ghost predicate Writes(src: seq<Byte>, items: seq<Item>, tail: nat) {
    src == Spell(items, tail) && Sound(Strip(items), 0)
  }

  /** Exactly those texts are valid. */
  lemma ValidIff(src: seq<Byte>)
    ensures Check(src, 0, 0, 0).Some? <==> exists items, tail :: Writes(src, items, tail)
  {
    hide Check, Sound, Spell, Strip;
    assert src[0..] == src;
    if Check(src, 0, 0, 0).Some? {
      var items, tail := CheckedIsSpelled(src, 0, 0, 0);
      assert Writes(src, items, tail);
    }
    forall items, tail | Writes(src, items, tail) ensures Check(src, 0, 0, 0).Some? {
      CheckSpelled(src, 0, items, tail, 0, 0);
    }
  }

  lemma {:induction false} EncodedSound(src: seq<Byte>)
    ensures Sound(Encode(src), 0)
    decreases |src|
  {
    if src == [] {
    } else if |src| <= 2 {
      var cs := Encode(src);
      assert cs == [cs[0], cs[1], cs[2], cs[3]];
      MapsInvert(src[0] / 4);
      MapsInvert(src[0] % 4 * 16 + if |src| == 2 then src[1] / 16 else 0);
      MapsInvert(if |src| == 2 then src[1] % 16 * 4 else 0);
      SoundTail(cs);
    } else {
      var y := GroupDecodes(src[0], src[1], src[2], 0);
      EncodedSound(src[3..]);
      SoundGroup(Group(src[0], src[1], src[2]), Encode(src[3..]));
    }
  }

  lemma SoundTail(cs: seq<Byte>)
    requires |cs| == 4 && Values(cs[..2]) && cs[3] == PAD && cs[2] < 128 && (cs[2] == PAD || DecMap(cs[2]) < 64)
    ensures Sound(cs, 0)
  {
    assert Values([cs[0]]) by { assert cs[..2][0] == cs[0]; }
    assert Values([cs[1]]) by { assert cs[..2][1] == cs[1]; }
    assert cs[1..][1..] == cs[2..] && cs[2..][1..] == cs[3..] && cs[3..][1..] == [];
    assert Sound(cs[3..], if cs[2] == PAD then 1 else 0);
    assert Sound(cs[2..], 0);
    assert Sound(cs[1..], 0);
  }

  lemma {:induction false} SoundGroup(g: seq<Byte>, rest: seq<Byte>)
    requires Values(g) && Sound(rest, 0)
    ensures Sound(g + rest, 0)
    decreases |g|
  {
    if g == [] {
      assert g + rest == rest;
    } else {
      assert (g + rest)[1..] == g[1..] + rest;
      SoundGroup(g[1..], rest);
    }
  }

  // ---------- decoding ----------

  /** What decoding gives: the bytes, none for an invalid text. */
  function Decode(src: seq<Byte>): Option<seq<Byte>> {
    var counts := Check(src, 0, 0, 0);
    if counts.None? then None
    else
      NeverTooLong(src);
      Some(Emit(Significant(src), 0, 0, 3))
  }

  /** The length that the first pass computes. */
  function DecodedLength(src: seq<Byte>): int
    requires Check(src, 0, 0, 0).Some?
  {
    var (n, j) := Check(src, 0, 0, 0).value;
    OutputLength(n, j)
  }

  /** Decoding an encoding gives the bytes back, whatever line ends have been put between its characters. */
  lemma RoundTrip(src: seq<Byte>, items: seq<Item>, tail: nat)
    requires Strip(items) == Rfc4648(src)
    ensures Decode(Spell(items, tail)) == Some(src)
  {
    hide Check, Emit, Significant, Sound, Encode, Rfc4648, Spell, Strip;
    EncodeIsRfc(src);
    EncodedSound(src);
    var text := Spell(items, tail);
    assert text[0..] == text;
    CheckSpelled(text, 0, items, tail, 0, 0);
    EmitEncoded(src, 0);
  }

  method SecondPass(dst: array<Byte>, src: seq<Byte>) returns (olen: nat)
    requires Decode(src).Some? && |Decode(src).value| <= dst.Length
    modifies dst
    ensures olen == |Decode(src).value| && dst[..olen] == Decode(src).value
  {
    hide Check, Bytes, Shift, Significant;
    NeverTooLong(src);
    var j, n, x, i := 3, 0, 0, 0;
    olen := 0;
    ghost var whole := Decode(src).value;
    assert src[0..] == src && dst[..0] + whole == whole;
    while i < |src|
      invariant 0 <= i <= |src| && 0 <= n < 4 && 0 <= x < WORD && olen <= dst.Length
      invariant InAlphabet(Significant(src[i..]))
      invariant whole == dst[..olen] + Emit(Significant(src[i..]), x, n, j)
      decreases |src| - i
    {
      ghost var cs := Significant(src[i..]);
      if Skipped(src[i]) {
        BlanksVanish(src, i, i + 1);
      } else {
        OneSignificant(src, i);
        EmitOne(cs, x, n, j);
        var c := src[i];
        j := j - (if DecMap(c) == 64 then 1 else 0);
        x := Shift(x, c);
        n := n + 1;
        if n == 4 {
          n := 0;
          ghost var done := dst[..olen];
          Associate(done, Bytes(x, j), Emit(cs[1..], x, 0, j));
          olen := StoreBytes(dst, olen, x, j);
        }
      }
      i := i + 1;
    }
    assert Significant(src[i..]) == [] by { NothingLeft(src, i, 0, 0); }
    assert dst[..olen] + [] == dst[..olen];
  }

  method StoreBytes(dst: array<Byte>, p: nat, x: nat, j: int) returns (q: nat)
    requires p + |Bytes(x, j)| <= dst.Length
    modifies dst
    ensures q == p + |Bytes(x, j)| && dst[..q] == old(dst[..p]) + Bytes(x, j)
  {
    q := p;
    if j > 0 { dst[q] := x / 0x1_0000 % 0x100; q := q + 1; }
    if j > 1 { dst[q] := x / 0x100 % 0x100; q := q + 1; }
    if j > 2 { dst[q] := x % 0x100; q := q + 1; }
    assert dst[p..q] == Bytes(x, j);
    assert dst[..q] == dst[..p] + dst[p..q];
  }

  method DecodeInto(dst: array?<Byte>, src: seq<Byte>) returns (status: Status, olen: nat)
    modifies dst
    ensures status == InvalidCharacter <==> Decode(src).None?
    ensures status == BufferTooSmall ==> Decode(src).Some? && olen == DecodedLength(src)
    ensures status == Done ==> olen == |Decode(src).value|
    ensures status == Done && olen > 0 ==> dst != null && olen <= dst.Length && dst[..olen] == Decode(src).value
    ensures Decode(src).Some? && dst != null && DecodedLength(src) <= dst.Length ==> status == Done
  {
    var counts := FirstPass(src);
    if counts.None? { return InvalidCharacter, 0; }
    NeverTooLong(src);
    var (n, j) := counts.value;
    if n == 0 { return Done, 0; }
    var length := 6 * (n / 8) + (6 * (n % 8) + 7) / 8 - j;
    if dst == null || dst.Length < length { return BufferTooSmall, length; }
    olen := SecondPass(dst, src);
    return Done, olen;
  }
}
