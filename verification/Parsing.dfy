/** The recursive-descent parser: offsets into a terminated text, whitespace, numbers, values, and the nesting limit. */
module Parsing {
  import opened Basics
  import opened CStrings
  import opened JsonModel
  import opened Literals
  import opened Pointers

  const NESTING_LIMIT := 1000
  const NUMBER_BUFFER := 64

  /** The content the parser works on ends with its terminator. */
  predicate Terminated(c: seq<char>) {
    c != [] && c[|c| - 1] == '\0'
  }

  // ---------- whitespace ----------

  function SkipSpaces(c: seq<char>, o: nat): (p: nat)
    requires o <= |c|
    ensures o <= p <= |c|
    ensures forall i :: o <= i < p ==> c[i] <= ' '
    ensures p < |c| ==> c[p] > ' '
    decreases |c| - o
  {
    if o < |c| && c[o] <= ' ' then SkipSpaces(c, o + 1) else o
  }

  /** Skips whitespace; the terminator counts as whitespace, so the end is stepped back from. */
  function SkipWhitespace(c: seq<char>, o: nat): (p: nat)
    requires c != [] && o < |c|
    ensures o <= p < |c|
  {
    var p := SkipSpaces(c, o);
    if p == |c| then p - 1 else p
  }

  // ---------- numbers ----------

  predicate NumberChar(ch: char) {
    '0' <= ch <= '9' || ch == '+' || ch == '-' || ch == 'e' || ch == 'E' || ch == '.'
  }

  /** How many characters are copied for strtod. */
  function RunLength(c: seq<char>, o: nat, i: nat): (n: nat)
    requires o + i <= |c| && i < NUMBER_BUFFER
    ensures i <= n < NUMBER_BUFFER && o + n <= |c|
    ensures forall k :: o + i <= k < o + n ==> NumberChar(c[k])
    decreases |c| - o - i
  {
    if i < NUMBER_BUFFER - 1 && o + i < |c| && NumberChar(c[o + i]) then RunLength(c, o, i + 1) else i
  }

  function DigitsEnd(t: seq<char>, k: nat): (e: nat)
    requires k <= |t|
    ensures k <= e <= |t|
    ensures forall i :: k <= i < e ==> '0' <= t[i] <= '9'
    ensures e < |t| ==> !('0' <= t[e] <= '9')
    decreases |t| - k
  {
    if k < |t| && '0' <= t[k] <= '9' then DigitsEnd(t, k + 1) else k
  }

  /** strtod, restricted to integers: the value and the number of characters it takes; other numbers are refused. */
  function ReadInteger(t: seq<char>): (r: Option<(int, nat)>)
    ensures r.Some? ==> 0 < r.value.1 <= |t|
  {
    var k := if t != "" && (t[0] == '-' || t[0] == '+') then 1 else 0;
    var e := DigitsEnd(t, k);
    if e == k || (e < |t| && (t[e] == '.' || t[e] == 'e' || t[e] == 'E')) then None
    else
      var n: int := NumberOf(t[k..e]);
      Some((if k == 1 && t[0] == '-' then -n else n, e))
  }

  function ParseNumber(c: seq<char>, o: nat): (r: Option<(int, nat)>)
    requires Terminated(c) && o < |c|
    ensures r.Some? ==> o < r.value.1 < |c|
  {
    var read := ReadInteger(c[o..o + RunLength(c, o, 0)]);
    if read.None? then None else Some((read.value.0, o + read.value.1))
  }

  // ---------- values ----------

  function ParseValue(c: seq<char>, o: nat, depth: nat): (r: Option<(Json, nat)>)
    requires Terminated(c) && o < |c|
    ensures r.Some? ==> o < r.value.1 < |c|
    decreases |c| - o, 1
  {
    if Has(c, o, "null") then HasAt(c, o, "null", 3); Some((Null, o + 4))
    else if Has(c, o, "false") then HasAt(c, o, "false", 4); Some((False, o + 5))
    else if Has(c, o, "true") then HasAt(c, o, "true", 3); Some((True, o + 4))
    else if c[o] == '\"' then
      var s := ParseString(c, o);
      if s.None? then None else Some((Str(s.value.0), s.value.1))
    else if c[o] == '-' || '0' <= c[o] <= '9' then
      var n := ParseNumber(c, o);
      if n.None? then None else Some((Number(n.value.0), n.value.1))
    else if c[o] == '[' then ParseArray(c, o, depth)
    else if c[o] == '{' then ParseObject(c, o, depth)
    else None
  }

  function ParseArray(c: seq<char>, o: nat, depth: nat): (r: Option<(Json, nat)>)
    requires Terminated(c) && o < |c| && c[o] == '['
    ensures r.Some? ==> o < r.value.1 < |c|
    decreases |c| - o, 0
  {
    if depth >= NESTING_LIMIT then None
    else
      var p := SkipWhitespace(c, o + 1);
      if c[p] == ']' then Some((Array(End), p + 1))
      else
        var items := ParseItems(c, p, depth + 1);
        if items.None? then None else Some((Array(items.value.0), items.value.1))
  }

  /** The elements from `o` on and the closing bracket. */
  function ParseItems(c: seq<char>, o: nat, depth: nat): (r: Option<(Nodes, nat)>)
    requires Terminated(c) && o < |c|
    ensures r.Some? ==> o < r.value.1 < |c|
    decreases |c| - o, 2
  {
    var item := ParseValue(c, SkipWhitespace(c, o), depth);
    if item.None? then None
    else
      var e := SkipWhitespace(c, item.value.1);
      if c[e] == ',' then
        var rest := ParseItems(c, e + 1, depth);
        if rest.None? then None else Some((Node("", item.value.0, rest.value.0), rest.value.1))
      else if c[e] == ']' then Some((Node("", item.value.0, End), e + 1))
      else None
  }

  function ParseObject(c: seq<char>, o: nat, depth: nat): (r: Option<(Json, nat)>)
    requires Terminated(c) && o < |c| && c[o] == '{'
    ensures r.Some? ==> o < r.value.1 < |c|
    decreases |c| - o, 0
  {
    if depth >= NESTING_LIMIT then None
    else
      var p := SkipWhitespace(c, o + 1);
      if c[p] == '}' then Some((Object(End), p + 1))
      else
        var members := ParseMembers(c, p, depth + 1);
        if members.None? then None else Some((Object(members.value.0), members.value.1))
  }

  /** One name, the colon, and one value. */
  function ParseMember(c: seq<char>, o: nat, depth: nat): (r: Option<(string, Json, nat)>)
    requires Terminated(c) && o < |c|
    ensures r.Some? ==> o < r.value.2 < |c|
    decreases |c| - o, 2
  {
    var key := ParseString(c, SkipWhitespace(c, o));
    if key.None? then None
    else
      var e := SkipWhitespace(c, key.value.1);
      if c[e] != ':' then None
      else
        var v := ParseValue(c, SkipWhitespace(c, e + 1), depth);
        if v.None? then None else Some((key.value.0, v.value.0, v.value.1))
  }

  /** The members from `o` on and the closing brace. */
  function ParseMembers(c: seq<char>, o: nat, depth: nat): (r: Option<(Nodes, nat)>)
    requires Terminated(c) && o < |c|
    ensures r.Some? ==> o < r.value.1 < |c|
    decreases |c| - o, 3
  {
    var member := ParseMember(c, o, depth);
    if member.None? then None
    else
      var (key, v, end) := member.value;
      var e := SkipWhitespace(c, end);
      if c[e] == ',' then
        var rest := ParseMembers(c, e + 1, depth);
        if rest.None? then None else Some((Node(key, v, rest.value.0), rest.value.1))
      else if c[e] == '}' then Some((Node(key, v, End), e + 1))
      else None
  }

  /** cJSON_ParseWithOpts: the tree and the position where parsing ended. */
  function Parse(text: string, requireTerminated: bool): Option<(Json, nat)>
    requires NulFree(text)
  {
    var c := text + "\0";
    var start := if |c| > 4 && c[..3] == [0xEF as char, 0xBB as char, 0xBF as char] then 3 else 0;
    var r := ParseValue(c, SkipWhitespace(c, start), 0);
    if r.None? then None
    else if requireTerminated then
      var e := SkipWhitespace(c, r.value.1);
      if c[e] != '\0' then None else Some((r.value.0, e))
    else r
  }
}
