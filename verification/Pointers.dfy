/** JSON pointers: escaping, matching, decimal indices, lookup, and the search for a node's pointer. */
module Pointers {
  import opened Basics
  import opened CStrings
  import opened JsonModel

  // ---------- decimal numbers ----------

  function Digit(d: nat): char
    requires d < 10
  {
    '0' + d as char
  }

  /** What "%lu" prints. */
  function Decimal(n: nat): (s: string)
    ensures s != ""
    ensures forall i :: 0 <= i < |s| ==> '0' <= s[i] <= '9'
    ensures s[0] == '0' <==> n == 0
    ensures n == 0 ==> s == "0"
  {
    if n < 10 then [Digit(n)] else Decimal(n / 10) + [Digit(n % 10)]
  }

  /** The digits read so far and where reading stopped; the upper bound is tested on the first character only. */
  function ScanIndex(p: string, position: nat, parsed: nat): (r: (nat, nat))
    requires position <= |p|
    ensures position <= r.1 <= |p|
    decreases |p| - position
  {
    if position < |p| && p[position] >= '0' && p[0] <= '9' then
      ScanIndex(p, position + 1, 10 * parsed + (p[position] as nat - '0' as nat))
    else (parsed, position)
  }

  function DecodeIndex(p: string): Option<nat> {
    if |p| > 1 && p[0] == '0' && p[1] != '/' then None
    else
      var (parsed, position) := ScanIndex(p, 0, 0);
      if position < |p| && p[position] != '/' then None else Some(parsed)
  }

  method DecodeArrayIndexFromPointer(pointer: string) returns (index: Option<nat>)
    ensures index == DecodeIndex(pointer)
  {
    if |pointer| > 1 && pointer[0] == '0' && pointer[1] != '/' { return None; }
    var parsed, position := 0, 0;
    while position < |pointer| && pointer[position] >= '0' && pointer[0] <= '9'
      invariant 0 <= position <= |pointer| && 0 <= parsed
      invariant ScanIndex(pointer, position, parsed) == ScanIndex(pointer, 0, 0)
    {
      parsed, position := 10 * parsed + (pointer[position] as int - '0' as int), position + 1;
    }
    return if position < |pointer| && pointer[position] != '/' then None else Some(parsed);
  }

  /** A pointer token stops at the end of the string or at the next slash. */
  predicate TokenEnds(rest: string) {
    rest == "" || rest[0] == '/'
  }

  predicate AllDigits(t: string) {
    forall i :: 0 <= i < |t| ==> '0' <= t[i] <= '9'
  }

  /** An array index as section 4 of RFC 6901 writes it: digits without a leading zero. */
  predicate IsIndex(t: string) {
    t != "" && AllDigits(t) && (t[0] == '0' ==> t == "0")
  }

  predicate AtLeastZeros(t: string) {
    forall i :: 0 <= i < |t| ==> '0' <= t[i]
  }

  /** What the decoder makes of a token: it subtracts the zero from whatever is not below it. */
  function NumberOf(t: string): nat
    requires AtLeastZeros(t)
  {
    if t == "" then 0 else 10 * NumberOf(t[..|t| - 1]) + (t[|t| - 1] as nat - '0' as nat)
  }

  lemma {:induction false} NumberOfDecimal(n: nat)
    ensures IsIndex(Decimal(n)) && NumberOf(Decimal(n)) == n
  {
    var t := Decimal(n);
    if n >= 10 {
      NumberOfDecimal(n / 10);
      assert t[..|t| - 1] == Decimal(n / 10);
    } else {
      assert t[..0] == "" && NumberOf(t[..0]) == 0;
    }
  }

  lemma {:induction false} ScanDigits(t: string, rest: string)
    requires AtLeastZeros(t) && (t != "" ==> t[0] <= '9')
    ensures ScanIndex(t + rest, 0, 0) == ScanIndex(t + rest, |t|, NumberOf(t))
  {
    if t != "" {
      var front, last := t[..|t| - 1], [t[|t| - 1]];
      ScanDigits(front, last + rest);
      assert front + (last + rest) == t + rest;
    }
  }

  /** Reading stops in front of the first character below the zero. */
  lemma {:induction false} ScanStops(p: string, position: nat, parsed: nat, k: nat)
    requires position <= k < |p| && p[k] < '0'
    ensures var e := ScanIndex(p, position, parsed).1; e <= k && (p[0] > '9' || p[e] < '0')
    decreases k - position
  {
    if p[position] >= '0' && p[0] <= '9' {
      ScanStops(p, position + 1, 10 * parsed + (p[position] as nat - '0' as nat), k);
    }
  }

  /** The tokens that the decoder takes for an index. */
  predicate ReadsAsIndex(t: string) {
    t == "" || ('0' <= t[0] <= '9' && (t[0] == '0' ==> |t| == 1) && AtLeastZeros(t))
  }

  /** What the decoder makes of any token, whatever follows it. */
  lemma DecodesTo(t: string, rest: string)
    requires '/' !in t && TokenEnds(rest)
    ensures DecodeIndex(t + rest) == if ReadsAsIndex(t) then Some(NumberOf(t)) else None
  {
    var p := t + rest;
    assert forall i :: 0 <= i < |t| ==> p[i] == t[i] && t[i] in t;
    if t == "" {
      assert p == rest;
    } else if AtLeastZeros(t) && t[0] <= '9' {
      ScanDigits(t, rest);
    } else if !AtLeastZeros(t) {
      var k :| 0 <= k < |t| && t[k] < '0';
      ScanStops(p, 0, 0, k);
    }
  }

  /** The tokens that are no index, and are taken for one: the empty one, and a digit with more than digits behind it. */
  predicate Misread(t: string) {
    t == "" || ('1' <= t[0] <= '9' && AtLeastZeros(t) && !AllDigits(t))
  }

  /** The decoder follows section 4 of RFC 6901 exactly on all other tokens. */
  lemma IndexReadRightIff(t: string, rest: string)
    requires '/' !in t && TokenEnds(rest)
    ensures DecodeIndex(t + rest) == (if IsIndex(t) then Some(NumberOf(t)) else None) <==> !Misread(t)
  {
    DecodesTo(t, rest);
  }

  /** A proper index is read as the number it spells. */
  lemma DecodeProperIndex(t: string, rest: string)
    requires IsIndex(t) && TokenEnds(rest)
    ensures DecodeIndex(t + rest) == Some(NumberOf(t))
  {
    DecodesTo(t, rest);
  }

  lemma DecodeImproperIndex(t: string, rest: string)
    requires !Misread(t) && !IsIndex(t) && '/' !in t && TokenEnds(rest)
    ensures DecodeIndex(t + rest) == None
  {
    DecodesTo(t, rest);
  }

  /** A misread token is taken for the index that spells its number. */
  lemma MisreadAs(t: string, rest: string)
    requires Misread(t) && '/' !in t && TokenEnds(rest)
    ensures DecodeIndex(t + rest) == Some(NumberOf(t)) == DecodeIndex(Decimal(NumberOf(t)) + rest)
  {
    DecodesTo(t, rest);
    IndexRoundTrip(NumberOf(t), rest);
  }

  /** Reading a printed index gives the index back. */
  lemma IndexRoundTrip(n: nat, rest: string)
    requires TokenEnds(rest)
    ensures DecodeIndex(Decimal(n) + rest) == Some(n)
  {
    NumberOfDecimal(n);
    DecodeProperIndex(Decimal(n), rest);
  }

  /** Letters after a leading digit are read as digits, "1a" as 59, and nothing at all is read as 0. */
  lemma LettersReadAsDigits()
    ensures DecodeIndex("1a") == Some(59) && DecodeIndex("1:") == Some(20) && DecodeIndex("") == Some(0)
  {
    assert ScanIndex("1a", 2, 59) == ScanIndex("1a", 1, 1) == (59, 2);
    assert ScanIndex("1:", 2, 20) == ScanIndex("1:", 1, 1) == (20, 2);
  }

  // ---------- escaping ----------

  /** What the memory a name is written to held, at the place where a given rest of the name starts. */
  type Memory = string -> char

  /** A slash leaves its first byte as the memory held it; a tilde is written as if it were a slash. */
  function EncodePointer(source: string, memory: Memory): string {
    if source == "" then "" else EncodeChar(source[0], memory(source)) + EncodePointer(source[1..], memory)
  }

  function EncodeChar(c: char, held: char): string {
    if c == '/' then [held, '1'] else if c == '~' then "~1" else [c]
  }

  /** The escaped name as its readers see it: a terminator left in memory ends it. */
  function Escaped(source: string, memory: Memory): string {
    CString(EncodePointer(source, memory))
  }

  function PointerEncodedLength(source: string): nat {
    if source == "" then 0
    else (if source[0] == '~' || source[0] == '/' then 2 else 1) + PointerEncodedLength(source[1..])
  }

  lemma {:induction false} EncodedLength(source: string, memory: Memory)
    ensures |EncodePointer(source, memory)| == PointerEncodedLength(source)
  {
    if source != "" { EncodedLength(source[1..], memory); }
  }

  lemma {:induction false} LengthSplit(source: string, i: nat)
    requires i <= |source|
    ensures PointerEncodedLength(source[..i]) + PointerEncodedLength(source[i..]) == PointerEncodedLength(source)
  {
    if i > 0 {
      assert source[..i][1..] == source[1..][..i - 1] && source[i..] == source[1..][i - 1..];
      LengthSplit(source[1..], i - 1);
    } else {
      assert source[0..] == source;
    }
  }

  /** The memory in which a name is to be written from `start` on. */
  function Held(m: seq<char>, start: nat, source: string): Memory {
    (rest: string) =>
      if |rest| <= |source| && start + PointerEncodedLength(source[..|source| - |rest|]) < |m|
      then m[start + PointerEncodedLength(source[..|source| - |rest|])] else ' '
  }

  lemma HeldAt(m: seq<char>, start: nat, source: string, i: nat, d: nat)
    requires i < |source| && d + PointerEncodedLength(source[i..]) == start + PointerEncodedLength(source) && d < |m|
    ensures Held(m, start, source)(source[i..]) == m[d]
  {
    hide PointerEncodedLength;
    LengthSplit(source, i);
    assert |source| - |source[i..]| == i;
  }

  /** One character further, the text written and the text to come still make up the whole. */
  lemma EncodeStep(source: string, i: nat, memory: Memory, written: string)
    requires i < |source|
    ensures PointerEncodedLength(source[i..])
         == |EncodeChar(source[i], memory(source[i..]))| + PointerEncodedLength(source[i + 1..])
    ensures written + EncodePointer(source[i..], memory)
         == written + EncodeChar(source[i], memory(source[i..])) + EncodePointer(source[i + 1..], memory)
  {
    assert source[i..][1..] == source[i + 1..];
    assert EncodePointer(source[i..], memory)
        == EncodeChar(source[i], memory(source[i..])) + EncodePointer(source[i + 1..], memory);
  }

  lemma EncodedNothing(memory: Memory)
    ensures EncodePointer("", memory) == "" && PointerEncodedLength("") == 0
  {
  }

  lemma OneLength(c: char, held: char)
    ensures |EncodeChar(c, held)| == |EncodeChar(c, ' ')| > 0
  {
  }

  /** Writes behind `start`, into memory that may hold anything. */
  method EncodeStringAsPointer(destination: array<char>, start: nat, source: string)
    requires start + PointerEncodedLength(source) < destination.Length
    modifies destination
    ensures destination[..start] == old(destination[..start])
    ensures destination[start..start + PointerEncodedLength(source)]
         == EncodePointer(source, Held(old(destination[..]), start, source))
    ensures destination[start + PointerEncodedLength(source)] == '\0'
  {
    hide PointerEncodedLength, EncodePointer, EncodeChar, Held;
    ghost var memory, m := Held(destination[..], start, source), destination[..];
    EncodedNothing(memory);
    EncodedLength(source, memory);
    assert source[0..] == source && source[|source|..] == "";
    var i, d := 0, start;
    ghost var written := "";
    while i < |source|
      invariant 0 <= i <= |source|
      invariant start <= d && d + PointerEncodedLength(source[i..]) == start + PointerEncodedLength(source)
      invariant destination[..start] == old(destination[..start])
      invariant forall k :: d <= k < destination.Length ==> destination[k] == m[k]
      invariant destination[start..d] == written
      invariant written + EncodePointer(source[i..], memory) == EncodePointer(source, memory)
    {
      HeldAt(m, start, source, i, d);
      OneLength(source[i], destination[d]);
      EncodeStep(source, i, memory, written);
      written := written + EncodeChar(source[i], destination[d]);
      d := EncodeCharAt(destination, start, d, source[i]);
      i := i + 1;
    }
    destination[d] := '\0';
  }

  /** One round of the escaping loop. */
  method EncodeCharAt(destination: array<char>, ghost start: nat, d: nat, c: char) returns (next: nat)
    requires start <= d && d + |EncodeChar(c, ' ')| < destination.Length
    modifies destination
    ensures next == d + |EncodeChar(c, ' ')|
    ensures destination[..start] == old(destination[..start])
    ensures destination[start..next] == old(destination[start..d]) + EncodeChar(c, old(destination[d]))
    ensures forall i :: next <= i < destination.Length ==> destination[i] == old(destination[i])
  {
    next := d;
    if c == '/' {
      destination[next + 1] := '1';
      next := next + 1;
    } else if c == '~' {
      destination[next] := '~';
      destination[next + 1] := '1';
      next := next + 1;
    } else {
      destination[next] := c;
    }
    next := next + 1;
  }

  /** Escapes are decoded in place, but nothing behind an escape moves; a bad escape ends the work at once. */
  function DecodeFrom(buffer: string, w: nat, r: nat): string
    requires w <= r <= |buffer|
    decreases |buffer| - r
  {
    if r == |buffer| then buffer[..w]
    else if buffer[r] != '~' then DecodeFrom(buffer, w + 1, r + 1)
    else if r + 1 < |buffer| && buffer[r + 1] == '0' then DecodeFrom(buffer[w := '~'], w + 1, r + 2)
    else if r + 1 < |buffer| && buffer[r + 1] == '1' then DecodeFrom(buffer[w + 1 := '/'], w + 1, r + 2)
    else buffer
  }

  function DecodePointer(s: string): string { DecodeFrom(s, 0, 0) }

  method DecodePointerInPlace(buffer: array<char>) returns (end: nat)
    modifies buffer
    ensures end <= buffer.Length
    ensures buffer[..end] == DecodePointer(old(buffer[..]))
  {
    var w, r := 0, 0;
    assert buffer[..] == old(buffer[..]);
    while r < buffer.Length
      invariant 0 <= w <= r <= buffer.Length
      invariant DecodeFrom(buffer[..], w, r) == DecodePointer(old(buffer[..]))
      decreases buffer.Length - r
    {
      if buffer[r] == '~' {
        ghost var before := buffer[..];
        if r + 1 < buffer.Length && buffer[r + 1] == '0' {
          buffer[w] := '~';
          assert buffer[..] == before[w := '~'];
        } else if r + 1 < buffer.Length && buffer[r + 1] == '1' {
          buffer[w + 1] := '/';
          assert buffer[..] == before[w + 1 := '/'];
        } else {
          assert buffer[..buffer.Length] == buffer[..];
          return buffer.Length;
        }
        r := r + 1;
      }
      w, r := w + 1, r + 1;
    }
    return w;
  }

  lemma {:induction false} PlainEncodes(s: string, memory: Memory)
    requires '~' !in s && '/' !in s
    ensures EncodePointer(s, memory) == s
  {
    if s != "" {
      PlainEncodes(s[1..], memory);
      assert s == [s[0]] + s[1..];
    }
  }

  lemma {:induction false} PlainDecodes(s: string, i: nat)
    requires '~' !in s && i <= |s|
    ensures DecodeFrom(s, i, i) == s
    decreases |s| - i
  {
    if i < |s| {
      assert s[i] in s;
      PlainDecodes(s, i + 1);
    } else {
      assert s[..i] == s;
    }
  }

  // ---------- matching a member name against a token ----------

  predicate ComparePointers(name: string, pointer: string, caseSensitive: bool) {
    if name != "" && pointer != "" && pointer[0] != '/' then
      if pointer[0] == '~' then
        if (|pointer| > 1 && pointer[1] == '0' && name[0] == '~') || (|pointer| > 1 && pointer[1] == '1' && name[0] == '/')
        then ComparePointers(name[1..], pointer[2..], caseSensitive)
        else false
      else if (if caseSensitive then name[0] == pointer[0] else ToLower(name[0]) == ToLower(pointer[0]))
      then ComparePointers(name[1..], pointer[1..], caseSensitive)
      else false
    else (pointer != "" && pointer[0] != '/') == (name != "")
  }

  method ComparePointersLoop(name: string, pointer: string, caseSensitive: bool) returns (same: bool)
    ensures same == ComparePointers(name, pointer, caseSensitive)
  {
    var n, p := 0, 0;
    while n < |name| && p < |pointer| && pointer[p] != '/'
      invariant 0 <= n <= |name| && 0 <= p <= |pointer|
      invariant ComparePointers(name[n..], pointer[p..], caseSensitive) == ComparePointers(name, pointer, caseSensitive)
    {
      ghost var n0, p0 := n, p;
      assert name[n0..][1..] == name[n0 + 1..];
      if pointer[p] == '~' {
        if (p + 1 >= |pointer| || pointer[p + 1] != '0' || name[n] != '~')
          && (p + 1 >= |pointer| || pointer[p + 1] != '1' || name[n] != '/') {
          return false;
        }
        p := p + 1;
        assert pointer[p0..][2..] == pointer[p0 + 2..];
      } else if (!caseSensitive && ToLower(name[n]) != ToLower(pointer[p])) || (caseSensitive && name[n] != pointer[p]) {
        return false;
      }
      assert pointer[p0..][1..] == pointer[p0 + 1..];
      n, p := n + 1, p + 1;
    }
    return (p < |pointer| && pointer[p] != '/') == (n < |name|);
  }

  predicate SameName(a: string, b: string, caseSensitive: bool) {
    if caseSensitive then a == b else SameFolded(a, b)
  }

  /** The escaping of section 3 of RFC 6901. */
  function EscapeToken(name: string): (token: string)
    ensures '/' !in token
  {
    if name == "" then ""
    else (if name[0] == '~' then "~0" else if name[0] == '/' then "~1" else [name[0]]) + EscapeToken(name[1..])
  }

  /** A properly escaped token matches exactly the name it stands for, up to case when folding: the match follows RFC 6901. */
  lemma {:induction false} EscapedMatches(name: string, other: string, rest: string, caseSensitive: bool)
    requires TokenEnds(rest)
    ensures ComparePointers(name, EscapeToken(other) + rest, caseSensitive) <==> SameName(name, other, caseSensitive)
  {
    if other == "" {
      assert EscapeToken(other) + rest == rest;
    } else {
      EscapedStep(other, rest);
      if name != "" {
        EscapedMatches(name[1..], other[1..], rest, caseSensitive);
        assert name == [name[0]] + name[1..] && other == [other[0]] + other[1..];
      }
    }
  }

  /** The first character of an escaped token, and what follows it. */
  lemma EscapedStep(other: string, rest: string)
    requires other != ""
    ensures var p, q := EscapeToken(other) + rest, EscapeToken(other[1..]) + rest;
      if other[0] == '~' then |p| > 1 && p[0] == '~' && p[1] == '0' && p[2..] == q
      else if other[0] == '/' then |p| > 1 && p[0] == '~' && p[1] == '1' && p[2..] == q
      else p != "" && p[0] == other[0] && p[1..] == q
  {
    var front, tail := if other[0] == '~' then "~0" else if other[0] == '/' then "~1" else [other[0]], EscapeToken(other[1..]);
    assert EscapeToken(other) == front + tail;
    Behind(front, tail, rest);
  }

  lemma Behind(front: string, tail: string, rest: string)
    ensures var p := front + tail + rest;
      p[|front|..] == tail + rest && forall i :: 0 <= i < |front| ==> p[i] == front[i]
  {
  }

  lemma {:induction false} PlainEscapes(name: string)
    requires '~' !in name && '/' !in name
    ensures EscapeToken(name) == name
  {
    if name != "" {
      assert name[0] in name && forall c :: c in name[1..] ==> c in name;
      PlainEscapes(name[1..]);
      assert name == [name[0]] + name[1..];
    }
  }

  lemma MatchMeansSame(name: string, token: string, rest: string, caseSensitive: bool)
    requires '~' !in token && '/' !in token && TokenEnds(rest)
    ensures ComparePointers(name, token + rest, caseSensitive) <==> SameName(name, token, caseSensitive)
  {
    PlainEscapes(token);
    EscapedMatches(name, token, rest, caseSensitive);
  }

  /** A plain token matches exactly the names it spells, up to case when folding. */
  lemma PlainMatches(name: string, token: string, rest: string, caseSensitive: bool)
    requires '~' !in token && '/' !in token && TokenEnds(rest)
    requires caseSensitive || (IsLower(name) && IsLower(token))
    ensures ComparePointers(name, token + rest, caseSensitive) <==> name == token
  {
    MatchMeansSame(name, token, rest, caseSensitive);
    if !caseSensitive { SameFoldedLower(name, token); }
  }

  lemma {:induction false} MatchesItself(name: string, caseSensitive: bool)
    requires '~' !in name && '/' !in name
    ensures ComparePointers(name, name, caseSensitive)
  {
    if name != "" {
      assert name[0] in name && forall c :: c in name[1..] ==> c in name;
      MatchesItself(name[1..], caseSensitive);
    }
  }

  /** Memory full of a letter: what was to be escaped is then not found. */
  lemma {:induction false} TildeNeverMatches(name: string, caseSensitive: bool, memory: Memory)
    requires ('~' in name || '/' in name) && forall rest :: memory(rest) == 'x'
    ensures !ComparePointers(name, EncodePointer(name, memory), caseSensitive)
  {
    var p := EncodePointer(name, memory);
    if name[0] == '~' {
      assert p == "~1" + EncodePointer(name[1..], memory);
      assert p[0] == '~' && p[1] == '1';
    } else if name[0] == '/' {
      assert p == "x1" + EncodePointer(name[1..], memory);
      assert p[0] == 'x';
    } else {
      assert p == [name[0]] + EncodePointer(name[1..], memory);
      assert p[1..] == EncodePointer(name[1..], memory);
      assert name == [name[0]] + name[1..];
      TildeNeverMatches(name[1..], caseSensitive, memory);
    }
  }

  lemma {:induction false} NoTerminator(name: string, memory: Memory)
    requires NulFree(name) && forall rest :: memory(rest) == 'x'
    ensures NulFree(EncodePointer(name, memory))
  {
    if name != "" { NoTerminator(name[1..], memory); }
  }

  lemma PlainEscaped(name: string, memory: Memory)
    requires NulFree(name) && '~' !in name && '/' !in name
    ensures Escaped(name, memory) == EncodePointer(name, memory) == name
  {
    PlainEncodes(name, memory);
    CStringOfNulFree(name);
  }

  /** Escaped names find themselves again, whatever the memory held, exactly when there was nothing to escape. */
  lemma EscapingWorksIffNotNeeded(name: string, caseSensitive: bool)
    requires NulFree(name)
    ensures (forall memory: Memory :: ComparePointers(name, Escaped(name, memory), caseSensitive))
       <==> '~' !in name && '/' !in name
  {
    if '~' !in name && '/' !in name {
      forall memory: Memory ensures ComparePointers(name, Escaped(name, memory), caseSensitive) {
        PlainEscaped(name, memory);
        MatchesItself(name, caseSensitive);
      }
    } else {
      var memory: Memory := _ => 'x';
      TildeNeverMatches(name, caseSensitive, memory);
      NoTerminator(name, memory);
      CStringOfNulFree(EncodePointer(name, memory));
      assert !ComparePointers(name, Escaped(name, memory), caseSensitive);
    }
  }

  // ---------- lookup ----------

  /** The rest of the pointer after its current token. */
  function SkipToken(p: string): (rest: string)
    ensures |rest| <= |p| && TokenEnds(rest)
  {
    if TokenEnds(p) then p else SkipToken(p[1..])
  }

  lemma {:induction false} SkipPlain(token: string, rest: string)
    requires '/' !in token && TokenEnds(rest)
    ensures SkipToken(token + rest) == rest
  {
    if token == "" {
      assert token + rest == rest;
    } else {
      assert token[0] in token && (token + rest)[0] == token[0];
      assert (token + rest)[1..] == token[1..] + rest;
      assert forall c :: c in token[1..] ==> c in token;
      SkipPlain(token[1..], rest);
    }
  }

  function FindMember(ns: Nodes, p: string, caseSensitive: bool): (i: nat)
    ensures i <= Length(ns)
    ensures i < Length(ns) ==> ComparePointers(KeyAt(ns, i), p, caseSensitive)
  {
    if ns.End? || ComparePointers(ns.key, p, caseSensitive) then 0
    else 1 + FindMember(ns.next, p, caseSensitive)
  }

  /** The child that the token at the front of `p` selects. */
  function SelectChild(j: Json, p: string, caseSensitive: bool): (c: Option<nat>)
    ensures c.Some? ==> c.value < Width(j)
  {
    match j
    case Array(ns) =>
      (match DecodeIndex(p)
       case Some(i) => if i < Length(ns) then Some(i) else None
       case None => None)
    case Object(ns) =>
      var i := FindMember(ns, p, caseSensitive);
      if i < Length(ns) then Some(i) else None
    case _ => None
  }

  function GetItem(j: Json, pointer: string, caseSensitive: bool): (loc: Option<seq<nat>>)
    ensures loc.Some? ==> HasNode(j, loc.value)
    decreases |pointer|
  {
    if pointer == "" || pointer[0] != '/' then Some([])
    else
      match SelectChild(j, pointer[1..], caseSensitive)
      case None => None
      case Some(i) =>
        match GetItem(Child(j, i), SkipToken(pointer[1..]), caseSensitive)
        case None => None
        case Some(loc) =>
          assert ([i] + loc)[1..] == loc;
          Some([i] + loc)
  }

  lemma {:induction false} AtExtends(j: Json, loc: seq<nat>, i: nat)
    requires HasNode(j, loc) && i < Width(At(j, loc))
    ensures HasNode(j, loc + [i]) && At(j, loc + [i]) == Child(At(j, loc), i)
  {
    if loc != [] {
      AtExtends(Child(j, loc[0]), loc[1..], i);
      assert (loc + [i])[1..] == loc[1..] + [i];
    } else {
      assert loc + [i] == [i] && [i][1..] == [];
      assert At(j, [i]) == At(Child(j, i), []);
    }
  }

  /** The search along the siblings; `None` when the chain ends first. */
  method FindMemberLoop(ns: Nodes, p: string, caseSensitive: bool) returns (found: Option<nat>)
    ensures var i := FindMember(ns, p, caseSensitive);
            found == if i < Length(ns) then Some(i) else None
  {
    var current, i := ns, 0;
    while current.Node?
      decreases current
      invariant Length(ns) == i + Length(current)
      invariant FindMember(ns, p, caseSensitive) == i + FindMember(current, p, caseSensitive)
    {
      var same := ComparePointersLoop(current.key, p, caseSensitive);
      if same { return Some(i); }
      current, i := current.next, i + 1;
    }
    return None;
  }

  /** The walk of get_array_item: `None` when the chain ends first. */
  method GetArrayItemLoop(ns: Nodes, index: nat) returns (found: Option<nat>)
    ensures found == if index < Length(ns) then Some(index) else None
  {
    var current, left := ns, index;
    while current.Node? && left > 0
      invariant 0 <= left <= index && Length(ns) == index - left + Length(current)
    {
      current, left := current.next, left - 1;
    }
    assert current.Node? <==> Length(current) > 0;
    return if current.Node? then Some(index) else None;
  }

  method SelectChildLoop(j: Json, p: string, caseSensitive: bool) returns (c: Option<nat>)
    ensures c == SelectChild(j, p, caseSensitive)
  {
    match j {
      case Array(ns) =>
        var index := DecodeArrayIndexFromPointer(p);
        if index.None? { return None; }
        c := GetArrayItemLoop(ns, index.value);
      case Object(ns) =>
        c := FindMemberLoop(ns, p, caseSensitive);
      case _ =>
        return None;
    }
  }

  function Below(loc: seq<nat>, found: Option<seq<nat>>): Option<seq<nat>> {
    match found
    case None => None
    case Some(l) => Some(loc + l)
  }

  /** One token further down, the rest of the lookup is the lookup from the child. */
  lemma LookupStep(current: Json, rest: string, caseSensitive: bool, loc: seq<nat>, i: nat)
    requires rest != "" && rest[0] == '/' && SelectChild(current, rest[1..], caseSensitive) == Some(i)
    ensures Below(loc, GetItem(current, rest, caseSensitive))
         == Below(loc + [i], GetItem(Child(current, i), SkipToken(rest[1..]), caseSensitive))
  {
    hide SelectChild, SkipToken, Child, HasNode;
    var found := GetItem(Child(current, i), SkipToken(rest[1..]), caseSensitive);
    if found.Some? {
      assert loc + ([i] + found.value) == (loc + [i]) + found.value;
    }
  }

  lemma NothingBelow(found: Option<seq<nat>>)
    ensures Below([], found) == found
  {
    if found.Some? { assert [] + found.value == found.value; }
  }

  /** The walk down the tree, one token a round. */
  method GetItemFromPointer(root: Json, pointer: string, caseSensitive: bool) returns (found: Option<seq<nat>>)
    ensures found == GetItem(root, pointer, caseSensitive)
  {
    var rest, loc, current := pointer, [], root;
    NothingBelow(GetItem(root, pointer, caseSensitive));
    while rest != "" && rest[0] == '/'
      invariant HasNode(root, loc) && At(root, loc) == current
      invariant GetItem(root, pointer, caseSensitive) == Below(loc, GetItem(current, rest, caseSensitive))
      decreases |rest|
    {
      var p := rest[1..];
      var i := SelectChildLoop(current, p, caseSensitive);
      if i.None? { return None; }
      LookupStep(current, rest, caseSensitive, loc, i.value);
      AtExtends(root, loc, i.value);
      while p != "" && p[0] != '/'
        invariant SkipToken(p) == SkipToken(rest[1..]) && |p| < |rest|
        decreases |p|
      {
        p := p[1..];
      }
      rest, loc, current := p, loc + [i.value], Child(current, i.value);
    }
    assert loc + [] == loc;
    return Some(loc);
  }

  // ---------- the pointer of a node ----------

  function TokenTo(j: Json, i: nat, memory: Memory): string
    requires i < Width(j)
  {
    if j.Array? then Decimal(i) else Escaped(KeyAt(j.child, i), memory)
  }

  /** What the search for a node writes down, given the way to it. */
  function PointerTo(j: Json, loc: seq<nat>, memory: Memory): string
    requires HasNode(j, loc)
    decreases loc
  {
    if loc == [] then "" else "/" + TokenTo(j, loc[0], memory) + PointerTo(Child(j, loc[0]), loc[1..], memory)
  }

  /** The search over all children in order; `target` is the node looked for, by its place under `j`. */
  method FindPointerFromObjectTo(j: Json, target: Option<seq<nat>>, memory: Memory) returns (pointer: Option<string>)
    requires target.Some? ==> HasNode(j, target.value)
    ensures pointer == match target { case None => None case Some(loc) => Some(PointerTo(j, loc, memory)) }
    decreases j
  {
    if target == Some([]) { return Some(""); }
    var i := 0;
    while i < Width(j)
      invariant 0 <= i <= Width(j)
      invariant target.Some? ==> i <= target.value[0]
    {
      var below := if target.Some? && target.value[0] == i then Some(target.value[1..]) else None;
      var full := FindPointerFromObjectTo(Child(j, i), below, memory);
      if full.Some? {
        if j.Array? {
          return Some("/" + Decimal(i) + full.value);
        } else {
          return Some("/" + Escaped(KeyAt(j.child, i), memory) + full.value);
        }
      }
      i := i + 1;
    }
    return None;
  }

  predicate NotAmong(key: string, ns: Nodes, caseSensitive: bool) {
    ns.End? || (!SameName(key, ns.key, caseSensitive) && NotAmong(key, ns.next, caseSensitive))
  }

  /** Names free of `~` and `/`, and distinct the way the lookup compares them. */
  predicate SearchableNames(ns: Nodes, caseSensitive: bool) {
    ns.End? ||
    (NulFree(ns.key) && '~' !in ns.key && '/' !in ns.key && NotAmong(ns.key, ns.next, caseSensitive)
     && SearchableNames(ns.next, caseSensitive))
  }

  predicate Searchable(j: Json, caseSensitive: bool) {
    match j
    case Array(ns) => SearchableNodes(ns, caseSensitive)
    case Object(ns) => SearchableNames(ns, caseSensitive) && SearchableNodes(ns, caseSensitive)
    case _ => true
  }

  predicate SearchableNodes(ns: Nodes, caseSensitive: bool) {
    ns.End? || (Searchable(ns.value, caseSensitive) && SearchableNodes(ns.next, caseSensitive))
  }

  lemma {:induction false} FindsItsName(ns: Nodes, i: nat, rest: string, caseSensitive: bool)
    requires i < Length(ns) && SearchableNames(ns, caseSensitive) && TokenEnds(rest)
    ensures FindMember(ns, KeyAt(ns, i) + rest, caseSensitive) == i
    ensures NulFree(KeyAt(ns, i)) && '~' !in KeyAt(ns, i) && '/' !in KeyAt(ns, i)
    ensures NotAmong(ns.key, ns.next, caseSensitive) && i > 0 ==> !SameName(ns.key, KeyAt(ns, i), caseSensitive)
  {
    if i > 0 {
      FindsItsName(ns.next, i - 1, rest, caseSensitive);
      NotAmongNth(ns.key, ns.next, i - 1, caseSensitive);
    }
    MatchMeansSame(ns.key, KeyAt(ns, i), rest, caseSensitive);
    SameFoldedSelf(ns.key);
  }

  lemma {:induction false} NotAmongNth(key: string, ns: Nodes, i: nat, caseSensitive: bool)
    requires i < Length(ns) && NotAmong(key, ns, caseSensitive)
    ensures !SameName(key, KeyAt(ns, i), caseSensitive)
  {
    if i > 0 { NotAmongNth(key, ns.next, i - 1, caseSensitive); }
  }

  lemma {:induction false} SearchableNth(ns: Nodes, i: nat, caseSensitive: bool)
    requires i < Length(ns) && SearchableNodes(ns, caseSensitive)
    ensures Searchable(Nth(ns, i), caseSensitive)
  {
    if i > 0 { SearchableNth(ns.next, i - 1, caseSensitive); }
  }

  /** The token written for a child selects that child. */
  lemma TokenSelects(j: Json, i: nat, rest: string, memory: Memory, caseSensitive: bool)
    requires i < Width(j) && Searchable(j, caseSensitive) && TokenEnds(rest)
    ensures '/' !in TokenTo(j, i, memory)
    ensures SelectChild(j, TokenTo(j, i, memory) + rest, caseSensitive) == Some(i)
  {
    if j.Array? {
      IndexRoundTrip(i, rest);
      assert '/' !in TokenTo(j, i, memory);
    } else {
      FindsItsName(j.child, i, rest, caseSensitive);
      PlainEscaped(KeyAt(j.child, i), memory);
    }
  }

  /** Looking up the pointer written for a node finds that very node. */
  lemma {:induction false} PointerFindsNode(j: Json, loc: seq<nat>, memory: Memory, caseSensitive: bool)
    requires HasNode(j, loc) && Searchable(j, caseSensitive)
    ensures GetItem(j, PointerTo(j, loc, memory), caseSensitive) == Some(loc)
    ensures TokenEnds(PointerTo(j, loc, memory))
    decreases loc
  {
    if loc != [] {
      var child, below := Child(j, loc[0]), loc[1..];
      SearchableNth(j.child, loc[0], caseSensitive);
      PointerFindsNode(child, below, memory, caseSensitive);
      PrependToken(j, loc[0], below, PointerTo(child, below, memory), memory, caseSensitive);
      assert [loc[0]] + below == loc;
    }
  }

  lemma PrependToken(j: Json, i: nat, below: seq<nat>, rest: string, memory: Memory, caseSensitive: bool)
    requires i < Width(j) && Searchable(j, caseSensitive) && TokenEnds(rest)
    requires GetItem(Child(j, i), rest, caseSensitive) == Some(below)
    ensures GetItem(j, "/" + TokenTo(j, i, memory) + rest, caseSensitive) == Some([i] + below)
  {
    TokenSelects(j, i, rest, memory, caseSensitive);
    SkipPlain(TokenTo(j, i, memory), rest);
    GetThrough(j, TokenTo(j, i, memory), rest, caseSensitive);
  }

  /** A lookup takes one token and goes on below the child it selects. */
  lemma GetThrough(j: Json, token: string, rest: string, caseSensitive: bool)
    requires SkipToken(token + rest) == rest
    ensures GetItem(j, "/" + token + rest, caseSensitive)
         == match SelectChild(j, token + rest, caseSensitive)
            case None => None
            case Some(i) => Below([i], GetItem(Child(j, i), rest, caseSensitive))
  {
    var p := "/" + token + rest;
    assert p[0] == '/' && p[1..] == token + rest;
  }
}
