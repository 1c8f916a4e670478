/** String literals: the two passes of parse_string, and what a well-formed literal stands for. */
module Literals {
  import opened Basics
  import opened CStrings

  // ---------- hexadecimal digits and UTF-8 ----------

  predicate IsHex(ch: char) {
    '0' <= ch <= '9' || 'A' <= ch <= 'F' || 'a' <= ch <= 'f'
  }

  function HexValue(ch: char): (d: nat)
    requires IsHex(ch)
    ensures d < 16
  {
    if '0' <= ch <= '9' then ch as nat - '0' as nat
    else if 'A' <= ch <= 'F' then 10 + ch as nat - 'A' as nat
    else 10 + ch as nat - 'a' as nat
  }

  predicate AllHex(s: seq<char>) {
    forall i :: 0 <= i < |s| ==> IsHex(s[i])
  }

  /** Four hexadecimal digits; anything else counts as zero. */
  function ParseHex4(s: seq<char>): (h: nat)
    requires |s| == 4
    ensures h <= 0xFFFF
  {
    if AllHex(s) then HexOfFour(s) else 0
  }

  function HexOfFour(s: seq<char>): (h: nat)
    requires |s| == 4 && AllHex(s)
    ensures h <= 0xFFFF
  {
    0x1000 * HexValue(s[0]) + 0x100 * HexValue(s[1]) + 0x10 * HexValue(s[2]) + HexValue(s[3])
  }

  const LOWER_DIGITS := "0123456789abcdef"
  const UPPER_DIGITS := "0123456789ABCDEF"

  /** One hexadecimal digit, in either case. */
  predicate Writes(ch: char, d: nat) {
    d < 16 && (ch == LOWER_DIGITS[d] || ch == UPPER_DIGITS[d])
  }

  /** `v` in four hexadecimal digits, each in either case. */
  predicate WritesHex(s: seq<char>, v: nat) {
    && |s| == 4 && v <= 0xFFFF
    && Writes(s[0], v / 4096) && Writes(s[1], v / 256 % 16) && Writes(s[2], v / 16 % 16) && Writes(s[3], v % 16)
  }

  lemma HexDigitRead(ch: char, d: nat)
    ensures Writes(ch, d) <==> IsHex(ch) && HexValue(ch) == d
  {
  }

  lemma Nibbles(v: nat, a: nat, b: nat, c: nat, d: nat)
    requires a < 16 && b < 16 && c < 16 && d < 16
    ensures v == 0x1000 * a + 0x100 * b + 0x10 * c + d
            <==> v <= 0xFFFF && a == v / 4096 && b == v / 256 % 16 && c == v / 16 % 16 && d == v % 16
  {
    if v == 0x1000 * a + 0x100 * b + 0x10 * c + d {
      assert v / 16 == 0x100 * a + 0x10 * b + c;
      assert v / 256 == 0x10 * a + b;
      assert v / 4096 == a;
    }
  }

  /** Four hexadecimal digits are read as the number they write; all other characters count as 0. */
  lemma HexRead(s: seq<char>, v: nat)
    requires |s| == 4
    ensures WritesHex(s, v) <==> AllHex(s) && ParseHex4(s) == v
    ensures !AllHex(s) ==> ParseHex4(s) == 0
  {
    hide Writes, IsHex, HexValue;
    HexDigitRead(s[0], v / 4096);
    HexDigitRead(s[1], v / 256 % 16);
    HexDigitRead(s[2], v / 16 % 16);
    HexDigitRead(s[3], v % 16);
    if AllHex(s) { Nibbles(v, HexValue(s[0]), HexValue(s[1]), HexValue(s[2]), HexValue(s[3])); }
  }

  method ParseHex4Loop(c: seq<char>, at: nat) returns (h: nat)
    requires at + 4 <= |c|
    ensures h == ParseHex4(c[at..at + 4])
  {
    ghost var s := c[at..at + 4];
    h := 0;
    for i := 0 to 4
      invariant AllHex(s[..i])
      invariant i == 1 ==> h == 16 * HexValue(s[0])
      invariant i == 2 ==> h == 16 * (16 * HexValue(s[0]) + HexValue(s[1]))
      invariant i == 3 ==> h == 16 * (16 * (16 * HexValue(s[0]) + HexValue(s[1])) + HexValue(s[2]))
      invariant i == 0 ==> h == 0
      invariant i == 4 ==> h == ParseHex4(s)
    {
      var ch := c[at + i];
      assert s[i] == ch;
      if '0' <= ch <= '9' {
        h := h + (ch as int - '0' as int);
      } else if 'A' <= ch <= 'F' {
        h := h + (10 + ch as int - 'A' as int);
      } else if 'a' <= ch <= 'f' {
        h := h + (10 + ch as int - 'a' as int);
      } else {
        return 0;
      }
      if i < 3 { h := h * 16; }
    }
  }

  /** UTF-8, section 3 of RFC 3629. */
  function Utf8(codepoint: nat): (bytes: seq<char>)
    requires codepoint <= 0x10FFFF
    ensures 1 <= |bytes| <= 4
    ensures codepoint < 0x10000 ==> |bytes| <= 3
  {
    if codepoint < 0x80 then [codepoint as char]
    else if codepoint < 0x800 then [(0xC0 + codepoint / 64) as char, Tail(codepoint)]
    else if codepoint < 0x10000 then [(0xE0 + codepoint / 4096) as char, Tail(codepoint / 64), Tail(codepoint)]
    else [(0xF0 + codepoint / 262144) as char, Tail(codepoint / 4096), Tail(codepoint / 64), Tail(codepoint)]
  }

  function Tail(bits: nat): char { (0x80 + bits % 64) as char }

  /** The decoder of section 3 of RFC 3629: no sequence that is longer than it need be, and only proper bytes behind the first. */
  function DecodeUtf8(bytes: seq<char>): (r: Option<(nat, nat)>) {
    if |bytes| >= 1 && bytes[0] as nat < 0x80 then Some((bytes[0] as nat, 1))
    else if |bytes| >= 2 && 0xC0 <= bytes[0] as nat < 0xE0 && Follow(bytes[1..2]) then
      Decoded(0x80, 64 * (bytes[0] as nat - 0xC0) + Bits(bytes[1]), 2)
    else if |bytes| >= 3 && 0xE0 <= bytes[0] as nat < 0xF0 && Follow(bytes[1..3]) then
      Decoded(0x800, 64 * (64 * (bytes[0] as nat - 0xE0) + Bits(bytes[1])) + Bits(bytes[2]), 3)
    else if |bytes| >= 4 && 0xF0 <= bytes[0] as nat < 0xF8 && Follow(bytes[1..4]) then
      Decoded(0x10000, 64 * (64 * (64 * (bytes[0] as nat - 0xF0) + Bits(bytes[1])) + Bits(bytes[2])) + Bits(bytes[3]), 4)
    else None
  }

  predicate Follow(bytes: seq<char>) {
    forall i :: 0 <= i < |bytes| ==> 0x80 <= bytes[i] as nat < 0xC0
  }

  function Decoded(least: nat, codepoint: nat, length: nat): Option<(nat, nat)> {
    if codepoint >= least then Some((codepoint, length)) else None
  }

  function Bits(b: char): nat { b as nat % 64 }

  lemma SixBits(x: nat)
    ensures 64 * (x / 64) + Bits(Tail(x)) == x
  {
    assert Tail(x) as nat == 0x80 + x % 64;
  }

  lemma TwoBytes(x: nat)
    requires 0x80 <= x < 0x800
    ensures DecodeUtf8(Utf8(x)) == Some((x, 2))
  {
    SixBits(x);
  }

  lemma ThreeBytes(x: nat)
    requires 0x800 <= x < 0x10000
    ensures DecodeUtf8(Utf8(x)) == Some((x, 3))
  {
    SixBits(x);
    SixBits(x / 64);
    assert x / 64 / 64 == x / 4096;
  }

  lemma FourBytes(x: nat)
    requires 0x10000 <= x <= 0x10FFFF
    ensures DecodeUtf8(Utf8(x)) == Some((x, 4))
  {
    SixBits(x);
    SixBits(x / 64);
    SixBits(x / 4096);
    assert x / 64 / 64 == x / 4096 && x / 4096 / 64 == x / 262144;
  }

  /** Decoding inverts encoding, whatever stands behind the bytes. */
  lemma Utf8RoundTrip(codepoint: nat, rest: seq<char>)
    requires codepoint <= 0x10FFFF
    ensures DecodeUtf8(Utf8(codepoint) + rest) == Some((codepoint, |Utf8(codepoint)|))
  {
    if codepoint < 0x80 {
    } else if codepoint < 0x800 {
      TwoBytes(codepoint);
    } else if codepoint < 0x10000 {
      ThreeBytes(codepoint);
    } else {
      FourBytes(codepoint);
    }
    DecodePrefix(Utf8(codepoint), rest);
  }

  lemma DecodePrefix(bytes: seq<char>, rest: seq<char>)
    requires DecodeUtf8(bytes).Some?
    ensures DecodeUtf8(bytes + rest) == DecodeUtf8(bytes)
  {
    var whole := bytes + rest;
    if |bytes| >= 2 { assert whole[1..2] == bytes[1..2]; }
    if |bytes| >= 3 { assert whole[1..3] == bytes[1..3]; }
    if |bytes| >= 4 { assert whole[1..4] == bytes[1..4]; }
  }

  /** The bytes are filled in from the last to the first, six bits at a time. */
  method StoreUtf8(codepoint: nat, output: array<char>, at: nat) returns (length: nat)
    requires codepoint <= 0x10FFFF && at + |Utf8(codepoint)| <= output.Length
    modifies output
    ensures length == |Utf8(codepoint)|
    ensures output[..at + length] == old(output[..at]) + Utf8(codepoint)
  {
    var mark := 0;
    if codepoint < 0x80 { length := 1; }
    else if codepoint < 0x800 { length, mark := 2, 0xC0; }
    else if codepoint < 0x10000 { length, mark := 3, 0xE0; }
    else { length, mark := 4, 0xF0; }
    var rest, position := codepoint, length - 1;
    while position > 0
      invariant 0 <= position < length
      invariant output[..at] == old(output[..at])
      invariant position == length - 1 ==> rest == codepoint
      invariant position == length - 2 ==> rest == codepoint / 64
      invariant position == length - 3 ==> rest == codepoint / 4096
      invariant position == length - 4 ==> rest == codepoint / 262144
      invariant forall i :: position < i < length ==> output[at + i] == Utf8(codepoint)[i]
    {
      output[at + position] := (0x80 + rest % 64) as char;
      rest, position := rest / 64, position - 1;
    }
    output[at] := if length > 1 then (rest + mark) as char else rest as char;
  }

  // ---------- the second pass ----------

  /** utf16_literal_to_utf8: the bytes, and how many characters of the literal they took. */
  function Convert(c: seq<char>, p: nat, end: nat): (r: Option<(nat, nat)>)
    requires p < end < |c|
    ensures r.Some? ==> r.value.0 <= 0x10FFFF && r.value.1 in {6, 12} && p + r.value.1 <= end
    ensures r.Some? && r.value.1 == 6 ==> r.value.0 < 0x10000
  {
    if end - p < 6 then None
    else
      var first := ParseHex4(c[p + 2..p + 6]);
      if 0xDC00 <= first <= 0xDFFF then None
      else if 0xD800 <= first <= 0xDBFF then
        if end - (p + 6) < 6 || c[p + 6] != '\\' || c[p + 7] != 'u' then None
        else
          var second := ParseHex4(c[p + 8..p + 12]);
          if second < 0xDC00 || second > 0xDFFF then None
          else Some((0x10000 + first % 0x400 * 0x400 + second % 0x400, 12))
      else Some((first, 6))
  }

  /** The code points of the escapes by one letter, section 7 of RFC 8259. */
  const ESCAPES: map<char, nat> :=
    map['b' := 8, 'f' := 12, 'n' := 10, 'r' := 13, 't' := 9, '\"' := 34, '\\' := 92, '/' := 47]

  function ShortEscape(ch: char): Option<char> {
    match ch
    case 'b' => Some(8 as char)
    case 'f' => Some(12 as char)
    case 'n' => Some('\n')
    case 'r' => Some('\r')
    case 't' => Some('\t')
    case '\"' => Some('\"')
    case '\\' => Some('\\')
    case '/' => Some('/')
    case _ => None
  }

  /** The switch of parse_string agrees with the table. */
  lemma ShortEscapeIsTable(letter: char)
    ensures ShortEscape(letter) == if letter in ESCAPES then Some(ESCAPES[letter] as char) else None
  {
  }

  /** One step of the second pass: the bytes it writes and how far it moves. */
  function Step(c: seq<char>, p: nat, end: nat): (r: Option<(seq<char>, nat)>)
    requires p < end < |c|
    ensures r.Some? ==> r.value.1 > 0 && |r.value.0| <= r.value.1
  {
    if c[p] != '\\' then Some(([c[p]], 1))
    else if c[p + 1] == 'u' then
      var converted := Convert(c, p, end);
      if converted.None? then None else Some((Utf8(converted.value.0), converted.value.1))
    else
      var letter := ShortEscape(c[p + 1]);
      if letter.None? then None else Some(([letter.value], 2))
  }

  function Decode(c: seq<char>, p: nat, end: nat): Option<seq<char>>
    requires end < |c|
    decreases end - p
  {
    if p >= end then Some([])
    else
      var step := Step(c, p, end);
      if step.None? then None
      else
        var rest := Decode(c, p + step.value.1, end);
        if rest.None? then None else Some(step.value.0 + rest.value)
  }

  // ---------- the first pass ----------

  /** The position of the closing quote. */
  function FindEnd(c: seq<char>, p: nat): (r: Option<nat>)
    ensures r.Some? ==> p <= r.value < |c| && c[r.value] == '\"'
    decreases |c| - p
  {
    if p >= |c| then None
    else if c[p] == '\"' then Some(p)
    else if c[p] == '\\' then (if p + 1 >= |c| then None else FindEnd(c, p + 2))
    else FindEnd(c, p + 1)
  }

  /** What the first pass counts between `p` and the closing quote: one for each escape and each other character. */
  function Units(c: seq<char>, p: nat): nat
    decreases |c| - p
  {
    if p >= |c| || c[p] == '\"' then 0
    else 1 + Units(c, if c[p] == '\\' then p + 2 else p + 1)
  }

  /** The first pass itself: the closing quote and the size estimate, which counts the opening quote as well. */
  method FindEndLoop(c: seq<char>, start: nat) returns (end: Option<nat>, allocation: nat)
    requires start < |c|
    ensures end == FindEnd(c, start + 1)
    ensures end.Some? ==> allocation == 1 + Units(c, start + 1)
  {
    var p, skipped := start + 1, 0;
    allocation := 0;
    while p < |c| && c[p] != '\"'
      invariant start + 1 <= p && 0 <= skipped <= p - start - 1
      invariant FindEnd(c, p) == FindEnd(c, start + 1)
      invariant p - start - 1 - skipped + Units(c, p) == Units(c, start + 1)
      decreases |c| - p
    {
      if c[p] == '\\' {
        if p + 1 >= |c| { return None, 0; }
        skipped, p := skipped + 1, p + 1;
      }
      p := p + 1;
    }
    if p >= |c| || c[p] != '\"' { return None, 0; }
    return Some(p), p - start - skipped;
  }

  // ---------- the estimate suffices ----------

  /** The first pass, started at `p`, stops at `end`. */
  predicate Reaches(c: seq<char>, p: nat, end: nat) {
    FindEnd(c, p) == Some(end)
  }

  lemma OneOn(c: seq<char>, p: nat, end: nat)
    requires Reaches(c, p, end) && p < end
    ensures p < |c| && var q := if c[p] == '\\' then p + 2 else p + 1;
      q <= end && Reaches(c, q, end) && Units(c, p) == 1 + Units(c, q)
  {
  }

  /**
   * Going `n` characters on from a place the first pass stops at leads to another such place,
   * or into the middle of an escape; at least every other character was counted.
   */
  lemma {:induction false} Walk(c: seq<char>, p: nat, n: nat, end: nat)
    requires Reaches(c, p, end) && p + n <= end
    ensures
      || (Reaches(c, p + n, end) && Units(c, p) >= (n + 1) / 2 + Units(c, p + n))
      || (p + n < end && Reaches(c, p + n + 1, end) && Units(c, p) >= (n + 2) / 2 + Units(c, p + n + 1))
    decreases n
  {
    hide Reaches, Units;
    if n > 0 {
      OneOn(c, p, end);
      if c[p] != '\\' {
        Walk(c, p + 1, n - 1, end);
      } else if n > 1 {
        Walk(c, p + 2, n - 2, end);
      }
    }
  }

  lemma StepSizes(c: seq<char>, p: nat, end: nat)
    requires p < end < |c| && Step(c, p, end).Some?
    ensures var (bytes, length) := Step(c, p, end).value;
      || (length == 1 && |bytes| == 1 && c[p] != '\\')
      || (length == 2 && |bytes| == 1 && c[p] == '\\')
      || (length == 6 && |bytes| <= 3 && c[p] == '\\' && p + 6 <= end)
      || (length == 12 && |bytes| <= 4 && c[p] == '\\' && p + 12 <= end)
  {
  }

  /** A step from `p` to `q` keeps the balance: what is written, and one more in the middle of an escape, has been counted. */
  predicate Balanced(c: seq<char>, budget: nat, written: nat, q: nat, end: nat) {
    || (Reaches(c, q, end) && written + Units(c, q) <= budget)
    || (q < end && Reaches(c, q + 1, end) && written + 1 + Units(c, q + 1) <= budget)
  }

  lemma AlignedStep(c: seq<char>, p: nat, end: nat)
    requires p < end < |c| && Step(c, p, end).Some? && Reaches(c, p, end)
    ensures var (bytes, length) := Step(c, p, end).value;
      p + length <= end && Balanced(c, Units(c, p), |bytes|, p + length, end)
  {
    StepSizes(c, p, end);
    var (bytes, length) := Step(c, p, end).value;
    if length >= 6 { Walk(c, p, length, end); }
  }

  lemma SplitStep(c: seq<char>, p: nat, end: nat)
    requires p < end < |c| && Step(c, p, end).Some? && Reaches(c, p + 1, end)
    ensures var (bytes, length) := Step(c, p, end).value;
      if p + length > end then |bytes| == 1 else Balanced(c, Units(c, p + 1) + 1, |bytes|, p + length, end)
  {
    StepSizes(c, p, end);
    var (bytes, length) := Step(c, p, end).value;
    if p + length <= end { Walk(c, p + 1, length - 1, end); }
  }

  /** Where the second pass stands, and that what it has written fits the budget. */
  predicate Within(c: seq<char>, budget: nat, written: nat, p: nat, end: nat) {
    written <= budget && (p <= end ==> Balanced(c, budget, written, p, end))
  }

  lemma KeepsWithin(c: seq<char>, budget: nat, written: nat, p: nat, end: nat, bytes: seq<char>, length: nat)
    requires p < end < |c| && Step(c, p, end) == Some((bytes, length)) && Within(c, budget, written, p, end)
    ensures Within(c, budget, written + |bytes|, p + length, end)
  {
    if Reaches(c, p, end) && written + Units(c, p) <= budget {
      AlignedStep(c, p, end);
    } else {
      SplitStep(c, p, end);
    }
  }

  /** Decoding, one step at a time. */
  lemma DecodeStep(c: seq<char>, p: nat, end: nat, bytes: seq<char>, length: nat)
    requires p < end < |c| && Step(c, p, end) == Some((bytes, length))
    ensures Decode(c, p, end) == Prepend(bytes, Decode(c, p + length, end))
  {
  }

  /**
   * The second pass never writes more than the first pass counted, for any input.
   * A conversion may leave it in the middle of an escape; it has then saved up at least one.
   */
  lemma {:induction false} EstimateSuffices(c: seq<char>, budget: nat, written: nat, p: nat, end: nat, output: seq<char>)
    requires end < |c| && Decode(c, p, end) == Some(output) && Within(c, budget, written, p, end)
    ensures written + |output| <= budget
    decreases end - p
  {
    hide Step, Units, FindEnd, Reaches, Balanced;
    if p < end {
      var (bytes, length) := Step(c, p, end).value;
      DecodeStep(c, p, end, bytes, length);
      KeepsWithin(c, budget, written, p, end, bytes, length);
      EstimateSuffices(c, budget, written + |bytes|, p + length, end, Decode(c, p + length, end).value);
    }
  }

  // ---------- parse_string ----------

  /** The text of the literal at `o` and the position behind it. */
  function ParseString(c: seq<char>, o: nat): (r: Option<(string, nat)>)
    requires o < |c|
    ensures r.Some? ==> o + 1 < r.value.1 <= |c| && c[r.value.1 - 1] == '\"' && NulFree(r.value.0)
  {
    if c[o] != '\"' then None
    else
      var end := FindEnd(c, o + 1);
      if end.None? then None
      else
        var decoded := Decode(c, o + 1, end.value);
        if decoded.None? then None else Some((CString(decoded.value), end.value + 1))
  }

  method StoreStep(c: seq<char>, p: nat, end: nat, output: array<char>, at: nat, ghost bytes: seq<char>)
    returns (r: Option<(nat, nat)>)
    requires p < end < |c|
    requires Step(c, p, end).Some? ==> bytes == Step(c, p, end).value.0 && at + |bytes| <= output.Length
    modifies output
    ensures r.Some? <==> Step(c, p, end).Some?
    ensures r.Some? ==> r.value == (|bytes|, Step(c, p, end).value.1)
    ensures r.Some? ==> output[..at + |bytes|] == old(output[..at]) + bytes
  {
    if c[p] != '\\' {
      output[at] := c[p];
      return Some((1, 1));
    }
    if c[p + 1] == 'u' {
      var converted := Convert(c, p, end);
      if converted.None? { return None; }
      var length := StoreUtf8(converted.value.0, output, at);
      return Some((length, converted.value.1));
    }
    var letter := ShortEscape(c[p + 1]);
    if letter.None? { return None; }
    output[at] := letter.value;
    return Some((1, 2));
  }

  /** The second pass, into an array of the estimated size and one more for the terminator. */
  method DecodeLoop(c: seq<char>, start: nat, end: nat, output: array<char>) returns (written: Option<nat>)
    requires end < |c| && Reaches(c, start, end) && output.Length == Units(c, start) + 2
    modifies output
    ensures written.Some? ==> written.value < output.Length
    ensures Decode(c, start, end) == (if written.None? then None else Some(output[..written.value]))
  {
    hide Step;
    var p, n := start, 0;
    ghost var whole, budget := Decode(c, start, end), Units(c, start);
    PrependNothing(whole);
    while p < end
      invariant 0 <= n && start <= p && Within(c, budget, n, p, end)
      invariant whole == Prepend(output[..n], Decode(c, p, end))
      decreases end - p
    {
      ghost var done := output[..n];
      ghost var bytes := NextBytes(c, budget, n, p, end, done);
      var step := StoreStep(c, p, end, output, n, bytes);
      if step.None? { return None; }
      n, p := n + step.value.0, p + step.value.1;
    }
    assert output[..n] + [] == output[..n];
    return Some(n);
  }

  lemma NextBytes(c: seq<char>, budget: nat, n: nat, p: nat, end: nat, done: seq<char>) returns (bytes: seq<char>)
    requires p < end < |c| && Within(c, budget, n, p, end)
    ensures Step(c, p, end).None? ==> Decode(c, p, end) == None
    ensures Step(c, p, end).Some? ==>
      var length := Step(c, p, end).value.1;
      && bytes == Step(c, p, end).value.0
      && Within(c, budget, n + |bytes|, p + length, end)
      && Prepend(done, Decode(c, p, end)) == Prepend(done + bytes, Decode(c, p + length, end))
  {
    bytes := [];
    if Step(c, p, end).Some? {
      var length: nat;
      bytes, length := Step(c, p, end).value.0, Step(c, p, end).value.1;
      KeepsWithin(c, budget, n, p, end, bytes, length);
      PrependStep(done, c, p, end);
    }
  }

  method ParseStringLoop(c: seq<char>, o: nat) returns (r: Option<(string, nat)>)
    requires o < |c|
    ensures r == ParseString(c, o)
  {
    if c[o] != '\"' { return None; }
    var end, allocation := FindEndLoop(c, o);
    if end.None? { return None; }
    var output := new char[allocation + 1];
    var written := DecodeLoop(c, o + 1, end.value, output);
    if written.None? { return None; }
    ghost var decoded := output[..written.value];
    output[written.value] := '\0';
    assert output[..][..written.value] == decoded;
    CStringStops(output[..], written.value);
    return Some((CString(output[..]), end.value + 1));
  }

  lemma PrependStep(done: seq<char>, c: seq<char>, p: nat, end: nat)
    requires p < end < |c| && Step(c, p, end).Some?
    ensures var (bytes, length) := Step(c, p, end).value;
      Prepend(done, Decode(c, p, end)) == Prepend(done + bytes, Decode(c, p + length, end))
  {
    var (bytes, length) := Step(c, p, end).value;
    var rest := Decode(c, p + length, end);
    if rest.Some? { Associate(done, bytes, rest.value); }
  }

  /** The terminator ends the C string. */
  lemma {:induction false} CStringStops(s: seq<char>, n: nat)
    requires n < |s| && s[n] == '\0'
    ensures CString(s) == CString(s[..n])
  {
    if n > 0 && s[0] != '\0' {
      assert s[..n][1..] == s[1..][..n - 1];
      CStringStops(s[1..], n - 1);
    }
  }

  // ---------- well-formed literals ----------

  /** The characters of a literal in section 7 of RFC 8259. */
  datatype Piece =
    | Plain(ch: char)
    | Short(letter: char)
    | Single(digits: seq<char>)
    | Pair(high: seq<char>, low: seq<char>)

  predicate WellFormedPiece(x: Piece) {
    match x
    case Plain(ch) => ch != '\"' && ch != '\\'
    case Short(letter) => letter in ESCAPES
    case Single(digits) => |digits| == 4 && AllHex(digits) && !(0xD800 <= HexOfFour(digits) <= 0xDFFF)
    case Pair(high, low) =>
      && |high| == 4 && AllHex(high) && 0xD800 <= HexOfFour(high) <= 0xDBFF
      && |low| == 4 && AllHex(low) && 0xDC00 <= HexOfFour(low) <= 0xDFFF
  }

  function Written(x: Piece): (s: seq<char>)
    ensures s != []
  {
    match x
    case Plain(ch) => [ch]
    case Short(letter) => ['\\', letter]
    case Single(digits) => ['\\', 'u'] + digits
    case Pair(high, low) => ['\\', 'u'] + high + ['\\', 'u'] + low
  }

  /** What it stands for, in UTF-8; characters that are not escaped are taken as they are. */
  function Bytes(x: Piece): seq<char>
    requires WellFormedPiece(x)
  {
    match x
    case Plain(ch) => [ch]
    case Short(letter) => [ESCAPES[letter] as char]
    case Single(digits) => Utf8(HexOfFour(digits))
    case Pair(high, low) => Utf8(0x10000 + (HexOfFour(high) - 0xD800) * 0x400 + (HexOfFour(low) - 0xDC00))
  }

  predicate WellFormedPieces(xs: seq<Piece>) {
    forall i :: 0 <= i < |xs| ==> WellFormedPiece(xs[i])
  }

  function WrittenAll(xs: seq<Piece>): seq<char> {
    if xs == [] then [] else Written(xs[0]) + WrittenAll(xs[1..])
  }

  function BytesAll(xs: seq<Piece>): seq<char>
    requires WellFormedPieces(xs)
  {
    if xs == [] then [] else Bytes(xs[0]) + BytesAll(xs[1..])
  }

  /** `t` stands at offset `o`. */
  predicate Has(c: seq<char>, o: nat, t: seq<char>) {
    o + |t| <= |c| && c[o..o + |t|] == t
  }

  lemma HasSplit(c: seq<char>, o: nat, a: seq<char>, b: seq<char>)
    requires Has(c, o, a + b)
    ensures Has(c, o, a) && Has(c, o + |a|, b)
  {
    assert c[o..o + |a|] == (a + b)[..|a|];
    assert c[o + |a|..o + |a| + |b|] == (a + b)[|a|..];
  }

  lemma HasAt(c: seq<char>, o: nat, t: seq<char>, i: nat)
    requires Has(c, o, t) && i < |t|
    ensures o + i < |c| && c[o + i] == t[i]
  {
    assert c[o..o + |t|][i] == t[i];
  }

  lemma FourDigits(c: seq<char>, o: nat, digits: seq<char>)
    requires Has(c, o, digits) && |digits| == 4 && AllHex(digits)
    ensures o + 4 <= |c| && ParseHex4(c[o..o + 4]) == HexOfFour(digits)
    ensures forall i :: o <= i < o + 4 ==> IsHex(c[i])
  {
    forall i | o <= i < o + 4 ensures IsHex(c[i]) { HasAt(c, o, digits, i - o); }
  }

  /** A \u escape is skipped by the first pass, and its digits are read. */
  lemma EscapedUnit(c: seq<char>, p: nat, digits: seq<char>)
    requires |digits| == 4 && AllHex(digits) && Has(c, p, ['\\', 'u'] + digits)
    ensures p + 6 <= |c| && c[p] == '\\' && c[p + 1] == 'u'
    ensures ParseHex4(c[p + 2..p + 6]) == HexOfFour(digits)
    ensures FindEnd(c, p) == FindEnd(c, p + 6)
  {
    var u := ['\\', 'u'];
    HasSplit(c, p, u, digits);
    HasAt(c, p, u, 0);
    HasAt(c, p, u, 1);
    FourDigits(c, p + 2, digits);
    PlainRun(c, p + 2, 4);
  }

  lemma ConvertPair(c: seq<char>, p: nat, end: nat, high: nat, low: nat)
    requires p + 12 <= end < |c| && c[p + 6] == '\\' && c[p + 7] == 'u'
    requires high == ParseHex4(c[p + 2..p + 6]) && low == ParseHex4(c[p + 8..p + 12])
    requires 0xD800 <= high <= 0xDBFF && 0xDC00 <= low <= 0xDFFF
    ensures Convert(c, p, end) == Some((0x10000 + (high - 0xD800) * 0x400 + (low - 0xDC00), 12))
  {
    hide ParseHex4;
    assert high % 0x400 == high - 0xD800 && low % 0x400 == low - 0xDC00;
  }

  lemma StepPair(c: seq<char>, p: nat, high: seq<char>, low: seq<char>, end: nat)
    requires WellFormedPiece(Pair(high, low)) && Has(c, p, Written(Pair(high, low))) && p + 12 <= end < |c|
    ensures Step(c, p, end) == Some((Bytes(Pair(high, low)), 12))
    ensures FindEnd(c, p) == FindEnd(c, p + 12)
  {
    var u := ['\\', 'u'];
    var first, second := u + high, u + low;
    assert Written(Pair(high, low)) == first + second;
    HasSplit(c, p, first, second);
    EscapedUnit(c, p, high);
    EscapedUnit(c, p + 6, low);
    ConvertPair(c, p, end, HexOfFour(high), HexOfFour(low));
  }

  lemma StepSingle(c: seq<char>, p: nat, x: Piece, end: nat)
    requires x.Single? && WellFormedPiece(x) && Has(c, p, Written(x)) && p + |Written(x)| <= end < |c|
    ensures Step(c, p, end) == Some((Bytes(x), |Written(x)|))
    ensures FindEnd(c, p) == FindEnd(c, p + |Written(x)|)
  {
    EscapedUnit(c, p, x.digits);
  }

  lemma {:induction false} PlainRun(c: seq<char>, p: nat, n: nat)
    requires p + n <= |c| && forall i :: p <= i < p + n ==> c[i] != '\"' && c[i] != '\\'
    ensures FindEnd(c, p) == FindEnd(c, p + n)
    decreases n
  {
    if n > 0 { PlainRun(c, p + 1, n - 1); }
  }

  lemma StepShort(c: seq<char>, p: nat, letter: char, end: nat)
    requires letter in ESCAPES && Has(c, p, ['\\', letter]) && p + 2 <= end < |c|
    ensures Step(c, p, end) == Some(([ESCAPES[letter] as char], 2))
    ensures FindEnd(c, p) == FindEnd(c, p + 2)
  {
    HasAt(c, p, ['\\', letter], 0);
    HasAt(c, p, ['\\', letter], 1);
    ShortEscapeIsTable(letter);
  }

  lemma StepPiece(c: seq<char>, p: nat, x: Piece, end: nat)
    requires WellFormedPiece(x) && Has(c, p, Written(x)) && p + |Written(x)| <= end < |c|
    ensures Step(c, p, end) == Some((Bytes(x), |Written(x)|))
    ensures FindEnd(c, p) == FindEnd(c, p + |Written(x)|)
  {
    match x
    case Pair(high, low) => StepPair(c, p, high, low, end);
    case Single(_) => StepSingle(c, p, x, end);
    case Short(letter) => StepShort(c, p, letter, end);
    case Plain(_) => HasAt(c, p, Written(x), 0);
  }

  /** Well-formed pieces are decoded one by one, and the first pass skips them. */
  lemma {:induction false} DecodePieces(c: seq<char>, p: nat, xs: seq<Piece>, end: nat)
    requires WellFormedPieces(xs) && Has(c, p, WrittenAll(xs)) && p + |WrittenAll(xs)| <= end < |c|
    ensures Decode(c, p, end) == Prepend(BytesAll(xs), Decode(c, p + |WrittenAll(xs)|, end))
    ensures FindEnd(c, p) == FindEnd(c, p + |WrittenAll(xs)|)
    decreases xs
  {
    hide Step, Decode, FindEnd, Written, Bytes, Has, WellFormedPiece, Prepend;
    if xs == [] {
      PrependNothing(Decode(c, p, end));
    } else {
      var first, others := Written(xs[0]), WrittenAll(xs[1..]);
      HasSplit(c, p, first, others);
      StepPiece(c, p, xs[0], end);
      DecodeStep(c, p, end, Bytes(xs[0]), |first|);
      DecodePieces(c, p + |first|, xs[1..], end);
      PrependTwice(Bytes(xs[0]), BytesAll(xs[1..]), Decode(c, p + |first| + |others|, end));
    }
  }

  /** A well-formed literal is read as the UTF-8 form of its code points, surrogate pairs joined. */
  lemma LiteralMeaning(c: seq<char>, o: nat, xs: seq<Piece>)
    requires WellFormedPieces(xs) && Has(c, o, "\"" + WrittenAll(xs) + "\"")
    ensures ParseString(c, o) == Some((CString(BytesAll(xs)), o + |WrittenAll(xs)| + 2))
  {
    hide Step, Decode, FindEnd, ParseString, WrittenAll, BytesAll, CString;
    var text, bytes := WrittenAll(xs), BytesAll(xs);
    Quoted(c, o, text);
    DecodePieces(c, o + 1, xs, o + 1 + |text|);
    NothingLeft(c, o + 1 + |text|);
    assert bytes + [] == bytes;
    BothPasses(c, o, o + 1 + |text|, bytes);
  }

  lemma NothingLeft(c: seq<char>, end: nat)
    requires end < |c| && c[end] == '\"'
    ensures Decode(c, end, end) == Some([]) && FindEnd(c, end) == Some(end)
  {
  }

  /** An escape at `p` that stands for nothing: an unknown letter, too few characters, or half a surrogate pair. */
  predicate BadEscape(c: seq<char>, p: nat, end: nat)
    requires p < end < |c|
  {
    && c[p] == '\\'
    && (if c[p + 1] != 'u' then c[p + 1] !in ESCAPES
        else end - p < 6 || (AllHex(c[p + 2..p + 6]) && BadUnit(c, p, end, HexOfFour(c[p + 2..p + 6]))))
  }

  predicate BadUnit(c: seq<char>, p: nat, end: nat, unit: nat)
    requires p + 6 <= end < |c|
  {
    || 0xDC00 <= unit <= 0xDFFF
    || (0xD800 <= unit <= 0xDBFF && !(p + 12 <= end && c[p + 6] == '\\' && c[p + 7] == 'u' && LowUnit(c[p + 8..p + 12])))
  }

  predicate LowUnit(s: seq<char>)
    requires |s| == 4
  {
    AllHex(s) && 0xDC00 <= HexOfFour(s) <= 0xDFFF
  }

  /** A closed literal is refused at its first bad escape. */
  lemma LiteralRefused(c: seq<char>, o: nat, xs: seq<Piece>, end: nat)
    requires WellFormedPieces(xs) && Has(c, o, "\"" + WrittenAll(xs))
    requires var p := o + 1 + |WrittenAll(xs)|;
      p < end < |c| && FindEnd(c, p) == Some(end) && BadEscape(c, p, end)
    ensures ParseString(c, o) == None
  {
    hide Decode, FindEnd, WrittenAll, BytesAll, Step, BadEscape;
    var p := o + 1 + |WrittenAll(xs)|;
    HasSplit(c, o, "\"", WrittenAll(xs));
    HasAt(c, o, "\"", 0);
    DecodePieces(c, o + 1, xs, end);
    BadStep(c, p, end);
    NoStep(c, p, end);
  }

  lemma BadStep(c: seq<char>, p: nat, end: nat)
    requires p < end < |c| && BadEscape(c, p, end)
    ensures Step(c, p, end) == None
  {
    ShortEscapeIsTable(c[p + 1]);
  }

  lemma NoStep(c: seq<char>, p: nat, end: nat)
    requires p < end < |c| && Step(c, p, end) == None
    ensures Decode(c, p, end) == None
  {
  }

  lemma BothPasses(c: seq<char>, o: nat, end: nat, bytes: seq<char>)
    requires o < end < |c| && c[o] == '\"' && FindEnd(c, o + 1) == Some(end) && Decode(c, o + 1, end) == Some(bytes)
    ensures ParseString(c, o) == Some((CString(bytes), end + 1))
  {
  }

  lemma Quoted(c: seq<char>, o: nat, text: seq<char>)
    requires Has(c, o, "\"" + text + "\"")
    ensures o + |text| + 2 <= |c| && Has(c, o + 1, text)
    ensures c[o] == '\"' && c[o + 1 + |text|] == '\"'
  {
    var quote := "\"";
    HasSplit(c, o, quote + text, quote);
    HasSplit(c, o, quote, text);
    HasAt(c, o, quote, 0);
    HasAt(c, o + 1 + |text|, quote, 0);
  }
}
