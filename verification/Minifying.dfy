/** cJSON_Minify: blanks and comments dropped in place, and what that makes of a formatted text. */
module Minifying {
  import opened Basics
  import opened CStrings
  import opened JsonModel
  import opened Literals
  import opened Pointers
  import opened Printing
  import opened Grammar
  import opened Layouts

  predicate IsBlank(ch: char) { ch == ' ' || ch == '\t' || ch == '\r' || ch == '\n' }

  predicate OpensLineComment(t: string) { |t| > 1 && t[0] == '/' && t[1] == '/' }

  predicate OpensBlockComment(t: string) { |t| > 1 && t[0] == '/' && t[1] == '*' }

  /** The length of a line comment, without the line end. */
  function LineLength(t: string): (n: nat)
    ensures n <= |t|
  {
    if t == "" || t[0] == '\n' then 0 else 1 + LineLength(t[1..])
  }

  /** The characters up to and with the first star and slash; none when the text ends before. */
  function BlockLength(t: string): (n: Option<nat>)
    ensures n.Some? ==> 2 <= n.value <= |t|
  {
    if t == "" then None
    else if t[0] == '*' && |t| > 1 && t[1] == '/' then Some(2)
    else AddLength(1, BlockLength(t[1..]))
  }

  function AddLength(k: nat, n: Option<nat>): Option<nat> {
    if n.None? then None else Some(k + n.value)
  }

  /** The characters of a literal behind its opening quote, up to and with the closing one. */
  function LiteralLength(t: string): (n: Option<nat>)
    ensures n.Some? ==> 0 < n.value <= |t|
  {
    if t == "" then None
    else if t[0] == '\"' then Some(1)
    else if t[0] == '\\' then (if |t| == 1 then None else AddLength(2, LiteralLength(t[2..])))
    else AddLength(1, LiteralLength(t[1..]))
  }

  /** The minified text; none when a literal or a block comment is not closed, where the cursor runs off the text. */
  function Minify(t: string): (m: Option<string>)
    ensures m.Some? ==> |m.value| <= |t|
    decreases |t|
  {
    if t == "" then Some("")
    else if IsBlank(t[0]) then Minify(t[1..])
    else if OpensLineComment(t) then
      assert LineLength(t) > 0;
      Minify(t[LineLength(t)..])
    else if OpensBlockComment(t) then
      var n := BlockLength(t);
      if n.None? then None else Minify(t[n.value..])
    else if t[0] == '\"' then
      var n := LiteralLength(t[1..]);
      if n.None? then None else Prepend(t[..1 + n.value], Minify(t[1 + n.value..]))
    else Prepend(t[..1], Minify(t[1..]))
  }

  // ---------- in place ----------

  /** The text in the buffer: terminated at `n`. */
  predicate Ends(t: seq<char>, n: nat) {
    n < |t| && t[n] == '\0' && NulFree(t[..n])
  }

  method SkipLine(a: array<char>, ghost t: seq<char>, json: nat, n: nat) returns (next: nat)
    requires json <= n < a.Length && Ends(t, n) && |t| == a.Length && a[json..] == t[json..]
    ensures next == json + LineLength(t[json..n]) <= n
  {
    forall i | json <= i < a.Length ensures a[i] == t[i] { assert a[json..][i - json] == t[json..][i - json]; }
    next := json;
    while a[next] != '\0' && a[next] != '\n'
      invariant json <= next <= n
      invariant next - json + LineLength(t[next..n]) == LineLength(t[json..n])
      decreases n - next
    {
      assert t[next..n][1..] == t[next + 1..n];
      next := next + 1;
    }
    assert next < n ==> t[next] == t[..n][next];
  }

  /** The cursor behind the comment; behind the terminator when the comment is not closed. */
  method SkipBlock(a: array<char>, ghost t: seq<char>, json: nat, n: nat) returns (next: nat)
    requires json <= n < a.Length && Ends(t, n) && |t| == a.Length && a[json..] == t[json..]
    ensures BlockLength(t[json..n]) == (if next <= n then Some(next - json) else None)
    ensures json <= next
  {
    forall i | json <= i < a.Length ensures a[i] == t[i] { assert a[json..][i - json] == t[json..][i - json]; }
    next := json;
    while a[next] != '\0' && !(a[next] == '*' && a[next + 1] == '/')
      invariant json <= next <= n
      invariant BlockLength(t[json..n]) == AddLength(next - json, BlockLength(t[next..n]))
      decreases n - next
    {
      assert t[next..n][1..] == t[next + 1..n];
      next := next + 1;
    }
    assert next < n ==> t[next] == t[..n][next];
    next := next + 2;
  }

  /**
   * The state of the two cursors: `done` has been written, nothing from the read cursor on has been touched,
   * and the write cursor has not passed the read cursor.
   */
  ghost predicate Cursors(a: array<char>, t: seq<char>, done: seq<char>, into: nat, json: nat)
    reads a
  {
    into <= json <= a.Length && |t| == a.Length && a[json..] == t[json..] && a[..into] == done
  }

  /** Moves one character to the write cursor. */
  method Move(a: array<char>, ghost t: seq<char>, ghost done: seq<char>, into: nat, json: nat)
    requires Cursors(a, t, done, into, json) && json < a.Length
    modifies a
    ensures Cursors(a, t, done + [t[json]], into + 1, json + 1)
  {
    assert a[json] == a[json..][0] == t[json];
    a[into] := a[json];
    assert a[json + 1..] == t[json..][1..];
  }

  /** `acc` is `done` and the characters of `t` from `i` to `j`. */
  ghost predicate Copied(acc: seq<char>, done: seq<char>, t: seq<char>, i: nat, j: nat) {
    i <= j <= |t| && acc == done + t[i..j]
  }

  lemma CopiedNone(done: seq<char>, t: seq<char>, i: nat)
    requires i <= |t|
    ensures Copied(done, done, t, i, i)
  {
  }

  lemma CopiedMore(acc: seq<char>, done: seq<char>, t: seq<char>, i: nat, j: nat)
    requires Copied(acc, done, t, i, j) && j < |t|
    ensures Copied(acc + [t[j]], done, t, i, j + 1)
  {
  }

  lemma CursorReads(a: array<char>, t: seq<char>, done: seq<char>, into: nat, json: nat)
    requires Cursors(a, t, done, into, json) && json < a.Length
    ensures a[json] == t[json]
  {
    assert a[json..][0] == t[json..][0];
  }

  /** Copies the literal that starts at `json`; none when it is not closed. */
  method CopyLiteral(a: array<char>, ghost t: seq<char>, ghost done: seq<char>, into: nat, json: nat, n: nat)
    returns (end: Option<nat>)
    requires Cursors(a, t, done, into, json) && json < n && Ends(t, n) && t[json] == '\"'
    modifies a
    ensures end == AddLength(json + 1, LiteralLength(t[json + 1..n]))
    ensures end.Some? ==> json < end.value <= n
    ensures end.Some? ==> Cursors(a, t, done + t[json..end.value], into + (end.value - json), end.value)
  {
    hide LiteralLength, AddLength, Cursors, Copied, Ahead, NulFree;
    LiteralStart(t, json + 1, n);
    CursorBound(a, t, done, into, json);
    var p, w := json, into;
    ghost var acc := done;
    CopiedNone(done, t, json);
    p, w, acc := Advance(a, t, done, json, acc, w, p);
    CursorReads(a, t, acc, w, p);
    while a[p] != '\0' && a[p] != '\"'
      invariant json < p <= n && w == into + (p - json) && a[p] == t[p]
      invariant Cursors(a, t, acc, w, p) && Copied(acc, done, t, json, p)
      invariant Ahead(t, json + 1, p, n)
      decreases n - p
    {
      LiteralStep(t, json + 1, p, n);
      var ok: bool;
      ok, p, w, acc := CopyUnit(a, t, done, json, acc, w, p, n);
      if !ok { return None; }
    }
    LiteralEnds(t, json + 1, p, n);
    if p == n { return None; }
    p, w, acc := Advance(a, t, done, json, acc, w, p);
    CopiedAll(acc, done, t, json, p);
    return Some(p);
  }

  /** One character of a literal, with the backslash before it. */
  method CopyUnit(a: array<char>, ghost t: seq<char>, ghost done: seq<char>, ghost start: nat,
        ghost acc: seq<char>, into: nat, json: nat, n: nat)
    returns (ok: bool, p: nat, w: nat, ghost next: seq<char>)
    requires Cursors(a, t, acc, into, json) && json < n < a.Length && Copied(acc, done, t, start, json)
    modifies a
    ensures json < |t|
    ensures if ok then p == json + (if t[json] == '\\' then 2 else 1) else t[json] == '\\' && json + 1 == n
    ensures ok ==> p <= n && w == into + (p - json) && a[p] == t[p]
    ensures ok ==> Cursors(a, t, next, w, p) && Copied(next, done, t, start, p)
  {
    hide Cursors, Copied;
    CursorBound(a, t, acc, into, json);
    CursorReads(a, t, acc, into, json);
    p, w, next := json, into, acc;
    if a[p] == '\\' {
      p, w, next := Advance(a, t, done, start, next, w, p);
      if p == n { return false, p, w, next; }
    }
    p, w, next := Advance(a, t, done, start, next, w, p);
    CursorReads(a, t, next, w, p);
    ok := true;
  }

  method Advance(a: array<char>, ghost t: seq<char>, ghost done: seq<char>, ghost start: nat,
        ghost acc: seq<char>, into: nat, json: nat)
    returns (p: nat, w: nat, ghost next: seq<char>)
    requires Cursors(a, t, acc, into, json) && json < a.Length && Copied(acc, done, t, start, json)
    modifies a
    ensures p == json + 1 && w == into + 1 && Cursors(a, t, next, w, p) && Copied(next, done, t, start, p)
  {
    CopiedMore(acc, done, t, start, json);
    Move(a, t, acc, into, json);
    return json + 1, into + 1, acc + [t[json]];
  }

  lemma CopiedAll(acc: seq<char>, done: seq<char>, t: seq<char>, i: nat, j: nat)
    requires Copied(acc, done, t, i, j)
    ensures i <= j <= |t| && acc == done + t[i..j]
  {
  }

  lemma CursorBound(a: array<char>, t: seq<char>, done: seq<char>, into: nat, json: nat)
    requires Cursors(a, t, done, into, json)
    ensures into <= json <= a.Length == |t|
  {
  }

  /** The literal that starts behind `start` has been followed up to `p`. */
  ghost predicate Ahead(t: seq<char>, start: nat, p: nat, n: nat) {
    start <= p <= n <= |t| && LiteralLength(t[start..n]) == AddLength(p - start, LiteralLength(t[p..n]))
  }

  lemma LiteralStart(t: seq<char>, start: nat, n: nat)
    requires start <= n <= |t|
    ensures Ahead(t, start, start, n)
  {
  }

  lemma LiteralEnds(t: seq<char>, start: nat, p: nat, n: nat)
    requires Ahead(t, start, p, n) && Ends(t, n) && (t[p] == '\0' || t[p] == '\"')
    ensures AddLength(start, LiteralLength(t[start..n])) == if p == n then None else Some(p + 1)
  {
    if p < n { assert t[..n][p] == t[p]; }
  }

  lemma LiteralStep(t: seq<char>, start: nat, p: nat, n: nat)
    requires Ahead(t, start, p, n) && p < n && t[p] != '\"'
    ensures t[p] != '\\' ==> Ahead(t, start, p + 1, n)
    ensures t[p] == '\\' && p + 1 == n ==> AddLength(start, LiteralLength(t[start..n])) == None
    ensures t[p] == '\\' && p + 1 < n ==> Ahead(t, start, p + 2, n)
  {
    assert t[p..n][1..] == t[p + 1..n];
    if p + 1 < n { assert t[p..n][2..] == t[p + 2..n]; }
  }

  // What Minify does with the text from `p` on, told by its first characters.

  lemma SuffixStarts(t: seq<char>, p: nat, n: nat)
    requires p < n && Ends(t, n)
    ensures t[p..n][0] == t[p] && t[p..n][1..] == t[p + 1..n] && t[p..n][..1] == [t[p]]
    ensures p + 1 < n ==> t[p..n][1] == t[p + 1]
  {
  }

  lemma MinifyBlank(t: seq<char>, p: nat, n: nat)
    requires p < n && Ends(t, n) && IsBlank(t[p])
    ensures Minify(t[p..n]) == Minify(t[p + 1..n])
  {
    SuffixStarts(t, p, n);
  }

  lemma MinifyLine(t: seq<char>, p: nat, n: nat, q: nat)
    requires p < n && Ends(t, n) && t[p] == '/' && t[p + 1] == '/' && q == p + LineLength(t[p..n])
    ensures p < q <= n && Minify(t[p..n]) == Minify(t[q..n])
  {
    SuffixStarts(t, p, n);
    assert t[p..n][q - p..] == t[q..n];
  }

  lemma MinifyBlock(t: seq<char>, p: nat, n: nat, length: Option<nat>)
    requires p < n && Ends(t, n) && t[p] == '/' && t[p + 1] == '*' && length == BlockLength(t[p..n])
    ensures length.None? ==> Minify(t[p..n]) == None
    ensures length.Some? ==> p + length.value <= n && Minify(t[p..n]) == Minify(t[p + length.value..n])
  {
    SuffixStarts(t, p, n);
    if length.Some? { assert t[p..n][length.value..] == t[p + length.value..n]; }
  }

  lemma MinifyLiteral(t: seq<char>, p: nat, n: nat, end: Option<nat>)
    requires p < n && Ends(t, n) && t[p] == '\"' && end == AddLength(p + 1, LiteralLength(t[p + 1..n]))
    ensures end.None? ==> Minify(t[p..n]) == None
    ensures end.Some? ==> p < end.value <= n && Minify(t[p..n]) == Prepend(t[p..end.value], Minify(t[end.value..n]))
  {
    SuffixStarts(t, p, n);
    if end.Some? {
      var s, k := t[p..n], end.value - p;
      assert s[..k] == t[p..end.value] && s[k..] == t[end.value..n];
    }
  }

  lemma MinifyOther(t: seq<char>, p: nat, n: nat)
    requires p < n && Ends(t, n)
    requires !IsBlank(t[p]) && !(t[p] == '/' && t[p + 1] == '/') && !(t[p] == '/' && t[p + 1] == '*') && t[p] != '\"'
    ensures Minify(t[p..n]) == Prepend([t[p]], Minify(t[p + 1..n]))
  {
    SuffixStarts(t, p, n);
  }

  lemma CursorsSkip(a: array<char>, t: seq<char>, done: seq<char>, into: nat, json: nat, next: nat)
    requires Cursors(a, t, done, into, json) && json <= next <= |t|
    ensures Cursors(a, t, done, into, next)
  {
    assert a[next..] == a[json..][next - json..] && t[next..] == t[json..][next - json..];
  }

  /** One round of the loop: what has been written and what is left stay the same minified text. */
  method Round(a: array<char>, ghost t: seq<char>, ghost done: seq<char>, into: nat, json: nat, n: nat)
    returns (ok: bool, w: nat, p: nat, ghost next: seq<char>)
    requires Cursors(a, t, done, into, json) && json < n && Ends(t, n)
    modifies a
    ensures !ok ==> Minify(t[json..n]) == None
    ensures ok ==> json < p <= n && Cursors(a, t, next, w, p)
    ensures ok ==> Prepend(done, Minify(t[json..n])) == Prepend(next, Minify(t[p..n]))
  {
    hide Minify, LineLength, BlockLength, LiteralLength, Cursors, Prepend, AddLength;
    CursorBound(a, t, done, into, json);
    CursorReads(a, t, done, into, json);
    CursorsSkip(a, t, done, into, json, json + 1);
    CursorReads(a, t, done, into, json + 1);
    ok, w, p, next := true, into, json, done;
    if IsBlank(a[json]) {
      MinifyBlank(t, json, n);
      p := json + 1;
    } else if a[json] == '/' && a[json + 1] == '/' {
      p := SkipLine(a, t, json, n);
      MinifyLine(t, json, n, p);
      CursorsSkip(a, t, done, into, json, p);
    } else if a[json] == '/' && a[json + 1] == '*' {
      p := SkipBlock(a, t, json, n);
      MinifyBlock(t, json, n, BlockLength(t[json..n]));
      if p > n { return false, w, p, next; }
      CursorsSkip(a, t, done, into, json, p);
    } else if a[json] == '\"' {
      var end := CopyLiteral(a, t, done, into, json, n);
      MinifyLiteral(t, json, n, end);
      if end.None? { return false, w, p, next; }
      PrependTwice(done, t[json..end.value], Minify(t[end.value..n]));
      w, p, next := into + (end.value - json), end.value, done + t[json..end.value];
    } else {
      MinifyOther(t, json, n);
      PrependTwice(done, [t[json]], Minify(t[json + 1..n]));
      Move(a, t, done, into, json);
      w, p, next := into + 1, json + 1, done + [t[json]];
    }
  }

  /** cJSON_Minify on a terminated buffer; false when the cursor runs off the text. */
  method MinifyInPlace(a: array<char>, n: nat) returns (ok: bool)
    requires Ends(a[..], n)
    modifies a
    ensures ok <==> Minify(old(a[..n])).Some?
    ensures ok ==>
      var m := Minify(old(a[..n])).value;
      |m| <= n && a[..|m|] == m && a[|m|] == '\0'
  {
    hide Minify, Cursors;
    ghost var t, whole, done := a[..], Minify(a[..n]), "";
    var into: nat, json: nat := 0, 0;
    PrependNothing(whole);
    assert t[0..n] == a[..n];
    CursorsStart(a);
    while a[json] != '\0'
      invariant json <= n < a.Length && Ends(t, n) && Cursors(a, t, done, into, json)
      invariant whole == Prepend(done, Minify(t[json..n])) && a[json] == t[json]
      decreases n - json
    {
      ok, into, json, done := Round(a, t, done, into, json, n);
      if !ok { return; }
      CursorReads(a, t, done, into, json);
    }
    AtTheEnd(t, json, n);
    CursorsWrite(a, t, done, into, json);
    assert done + "" == done;
    a[into] := '\0';
    assert a[..into] == done;
    return true;
  }

  lemma CursorsStart(a: array<char>)
    ensures Cursors(a, a[..], "", 0, 0)
  {
  }

  lemma CursorsWrite(a: array<char>, t: seq<char>, done: seq<char>, into: nat, json: nat)
    requires Cursors(a, t, done, into, json)
    ensures into == |done| <= json <= a.Length && a[..into] == done
  {
  }

  lemma AtTheEnd(t: seq<char>, p: nat, n: nat)
    requires p <= n && Ends(t, n) && t[p] == '\0'
    ensures p == n && Minify(t[p..n]) == Some("")
  {
    assert p == n;
  }

  // ---------- tokens are kept ----------

  predicate IsPlain(ch: char) { !IsBlank(ch) && ch != '/' && ch != '\"' }

  lemma {:induction false} PlainKept(x: string, rest: string)
    requires forall i :: 0 <= i < |x| ==> IsPlain(x[i])
    ensures Minify(x + rest) == Prepend(x, Minify(rest))
  {
    if x == "" {
      assert x + rest == rest;
      PrependNothing(Minify(rest));
    } else {
      assert (x + rest)[1..] == x[1..] + rest && (x + rest)[..1] == [x[0]] && x == [x[0]] + x[1..];
      PlainKept(x[1..], rest);
      PrependTwice([x[0]], x[1..], Minify(rest));
    }
  }

  /** The characters of a literal: escapes in pairs, and no other quote. */
  predicate Closed(raw: string) {
    raw == "" || (if raw[0] == '\\' then |raw| > 1 && Closed(raw[2..]) else raw[0] != '\"' && Closed(raw[1..]))
  }

  predicate Closes(q: Quoted) { Closed(q.raw) }

  lemma {:induction false} ClosedLength(raw: string, rest: string)
    requires Closed(raw)
    ensures LiteralLength(raw + ("\"" + rest)) == Some(|raw| + 1)
  {
    var t := raw + ("\"" + rest);
    if raw == "" {
      assert t == "\"" + rest;
    } else if raw[0] == '\\' {
      assert t[2..] == raw[2..] + ("\"" + rest);
      ClosedLength(raw[2..], rest);
    } else {
      assert t[1..] == raw[1..] + ("\"" + rest);
      ClosedLength(raw[1..], rest);
    }
  }

  /** Literals are copied whole, blanks and slashes inside included. */
  lemma LiteralKept(q: Quoted, rest: string)
    requires Closes(q)
    ensures Minify(QuotedText(q) + rest) == Prepend(QuotedText(q), Minify(rest))
  {
    hide LiteralLength, Closed;
    ClosedLength(q.raw, rest);
    var x := QuotedText(q);
    var t := x + rest;
    assert t[1..] == q.raw + ("\"" + rest) && t[0] == '\"';
    assert t[..|x|] == x && t[|x|..] == rest;
  }

  /** The text has no end of a block comment in it. */
  predicate NoCommentEnd(t: string) {
    forall i :: 0 <= i < |t| - 1 ==> !(t[i] == '*' && t[i + 1] == '/')
  }

  /** A blank, a comment up to a line end, or a block comment that does not begin with a slash. */
  predicate Ignored(f: Filler) {
    match f
    case Blank(ch) => ch == ' ' || ch == '\t' || ch == '\n' || ch == '\r'
    case LineComment(text) => '\n' !in text
    case BlockComment(text) => NoCommentEnd(text) && (text != "" ==> text[0] != '/')
  }

  lemma {:induction false} LineEnds(x: string, rest: string)
    requires '\n' !in x
    ensures LineLength(x + ("\n" + rest)) == |x|
  {
    var t := x + ("\n" + rest);
    if x == "" {
      assert t == "\n" + rest;
    } else {
      assert t[1..] == x[1..] + ("\n" + rest);
      LineEnds(x[1..], rest);
    }
  }

  lemma {:induction false} BlockEnds(x: string, rest: string)
    requires NoCommentEnd(x)
    ensures BlockLength(x + ("*/" + rest)) == Some(|x| + 2)
  {
    var t := x + ("*/" + rest);
    if x == "" {
      assert t == "*/" + rest;
    } else {
      assert t[1..] == x[1..] + ("*/" + rest);
      assert x[1..] == "" || !(x[0] == '*' && x[1] == '/');
      var y := x[1..];
      forall i | 0 <= i < |y| - 1 ensures !(y[i] == '*' && y[i + 1] == '/') {
        assert y[i] == x[i + 1] && y[i + 1] == x[i + 1 + 1];
      }
      BlockEnds(x[1..], rest);
    }
  }

  /**
   * A block comment is dropped up to its end exactly when it does not begin with a slash;
   * the end of the others is seen too early.
   */
  lemma CommentEndsIff(text: string, rest: string)
    requires NoCommentEnd(text)
    ensures BlockLength("/*" + (text + ("*/" + rest))) == Some(|text| + 4) <==> (text != "" ==> text[0] != '/')
  {
    var t := "/*" + (text + ("*/" + rest));
    if text != "" && text[0] == '/' {
      assert t[1..][0] == '*' && t[1..][1] == '/';
      assert BlockLength(t[1..]) == Some(2);
    } else {
      var x := "/*" + text;
      assert t == x + ("*/" + rest);
      BlockEnds(x, rest);
    }
  }

  lemma BlankDropped(ch: char, rest: string)
    requires Ignored(Blank(ch))
    ensures Minify([ch] + rest) == Minify(rest)
  {
    assert ([ch] + rest)[1..] == rest;
  }

  lemma LineDropped(text: string, rest: string)
    requires '\n' !in text
    ensures Minify("//" + (text + ("\n" + rest))) == Minify(rest)
  {
    var x, behind := "//" + text, "\n" + rest;
    var t := "//" + (text + behind);
    assert t == x + behind;
    LineEnds(x, rest);
    assert t[|x|..] == behind && behind[1..] == rest;
  }

  lemma BlockDropped(text: string, rest: string)
    requires Ignored(BlockComment(text))
    ensures Minify("/*" + (text + ("*/" + rest))) == Minify(rest)
  {
    hide BlockLength;
    var t := "/*" + (text + ("*/" + rest));
    CommentEndsIff(text, rest);
    assert t[|text| + 4..] == rest;
  }

  lemma FillerDropped(f: Filler, rest: string)
    requires Ignored(f)
    ensures Minify(FillerText(f) + rest) == Minify(rest)
  {
    hide Minify;
    match f
    case Blank(ch) => BlankDropped(ch, rest);
    case LineComment(text) =>
      LineDropped(text, rest);
      Associate("//" + text, "\n", rest);
      Associate("//", text, "\n" + rest);
    case BlockComment(text) =>
      BlockDropped(text, rest);
      Associate("/*" + text, "*/", rest);
      Associate("/*", text, "*/" + rest);
  }

  lemma {:induction false} GapDropped(g: Gap, rest: string)
    requires GapOk(g, Ignored)
    ensures Minify(GapText(g, rest)) == Minify(rest)
  {
    hide Minify, FillerText, Ignored;
    if g != [] {
      FillerDropped(g[0], GapText(g[1..], rest));
      GapDropped(g[1..], rest);
    }
  }

  /** A line comment may also end with the text. */
  lemma LastLineDropped(text: string)
    requires '\n' !in text
    ensures Minify("//" + text) == Some("")
  {
    var t := "//" + text;
    NoLineEnd(t);
    assert t[|t|..] == "";
  }

  lemma {:induction false} NoLineEnd(t: string)
    requires '\n' !in t
    ensures LineLength(t) == |t|
  {
    if t != "" { NoLineEnd(t[1..]); }
  }

  // ---------- the theorem ----------

  // The same tokens without any gaps.

  function Tight(s: Syntax): Syntax {
    match s
    case EmptyArray(_) => EmptyArray([])
    case FullArray(elements) => FullArray(TightElements(elements))
    case EmptyObject(_) => EmptyObject([])
    case FullObject(members) => FullObject(TightMembers(members))
    case _ => s
  }

  function TightElements(es: Elements): Elements {
    Element(Slot([], Tight(es.slot.value), []), if es.more.None? then None else Some(TightElements(es.more.value)))
  }

  function TightMembers(ms: Members): Members {
    Member([], ms.name, [], Slot([], Tight(ms.slot.value), []),
      if ms.more.None? then None else Some(TightMembers(ms.more.value)))
  }

  lemma Kept(x: string, rest: string, r: string)
    requires forall i :: 0 <= i < |x| ==> IsPlain(x[i])
    requires Minify(rest) == Some(r)
    ensures Minify(x + rest) == Some(x + r)
  {
    PlainKept(x, rest);
  }

  lemma {:induction false} SyntaxMinified(s: Syntax, rest: string, r: string)
    requires SyntaxOk(s, Ignored, Closes) && Minify(rest) == Some(r)
    ensures Minify(Spell(s, rest)) == Some(Spell(Tight(s), r))
    decreases s, 1
  {
    hide Minify, GapOk, Closes, QuotedText;
    match s
    case NullWord => Kept("null", rest, r);
    case FalseWord => Kept("false", rest, r);
    case TrueWord => Kept("true", rest, r);
    case Integer(minus, digits) => Kept(if minus then "-" + digits else digits, rest, r);
    case Literal(quoted) => LiteralKept(quoted, rest);
    case EmptyArray(inside) => EmptyMinified("[", inside, "]", rest, r);
    case EmptyObject(inside) => EmptyMinified("{", inside, "}", rest, r);
    case FullArray(elements) =>
      Kept("]", rest, r);
      ElementsMinified(elements, "]" + rest, "]" + r);
      Kept("[", SpellElements(elements, "]" + rest), SpellElements(TightElements(elements), "]" + r));
    case FullObject(members) =>
      Kept("}", rest, r);
      MembersMinified(members, "}" + rest, "}" + r);
      Kept("{", SpellMembers(members, "}" + rest), SpellMembers(TightMembers(members), "}" + r));
  }

  lemma EmptyMinified(open: string, inside: Gap, close: string, rest: string, r: string)
    requires GapOk(inside, Ignored) && Minify(rest) == Some(r)
    requires (open, close) == ("[", "]") || (open, close) == ("{", "}")
    ensures Minify(open + GapText(inside, close + rest)) == Some(open + GapText([], close + r))
  {
    hide Minify, GapOk;
    Kept(close, rest, r);
    GapDropped(inside, close + rest);
    NoGap(close + r);
    Kept(open, GapText(inside, close + rest), close + r);
  }

  lemma {:induction false} SlotMinified(x: Slot, rest: string, r: string)
    requires SlotOk(x, Ignored, Closes) && Minify(rest) == Some(r)
    ensures Minify(SpellSlot(x, rest)) == Some(SpellSlot(Slot([], Tight(x.value), []), r))
    decreases x, 0
  {
    hide Minify, GapOk, SyntaxOk, Spell, Tight, GapText;
    GapDropped(x.after, rest);
    SyntaxMinified(x.value, GapText(x.after, rest), r);
    GapDropped(x.before, Spell(x.value, GapText(x.after, rest)));
    NoGap(r);
    NoGap(Spell(Tight(x.value), r));
  }

  lemma {:induction false} ElementsMinified(es: Elements, rest: string, r: string)
    requires ElementsOk(es, Ignored, Closes) && Minify(rest) == Some(r)
    ensures Minify(SpellElements(es, rest)) == Some(SpellElements(TightElements(es), r))
    decreases es, 0
  {
    hide Minify, SlotOk, SpellSlot, Tight;
    if es.more.None? {
      SlotMinified(es.slot, rest, r);
    } else {
      var others, others' := SpellElements(es.more.value, rest), SpellElements(TightElements(es.more.value), r);
      ElementsMinified(es.more.value, rest, r);
      Kept(",", others, others');
      SlotMinified(es.slot, "," + others, "," + others');
    }
  }

  lemma {:induction false} MembersMinified(ms: Members, rest: string, r: string)
    requires MembersOk(ms, Ignored, Closes) && Minify(rest) == Some(r)
    ensures Minify(SpellMembers(ms, rest)) == Some(SpellMembers(TightMembers(ms), r))
    decreases ms, 1
  {
    hide Minify, SlotOk, SpellSlot, Tight, GapOk, GapText, QuotedText, Closes;
    if ms.more.None? {
      MemberMinified(ms, rest, r);
    } else {
      var others, others' := SpellMembers(ms.more.value, rest), SpellMembers(TightMembers(ms.more.value), r);
      MembersMinified(ms.more.value, rest, r);
      Kept(",", others, others');
      MemberMinified(ms, "," + others, "," + others');
    }
  }

  lemma {:induction false} MemberMinified(ms: Members, rest: string, r: string)
    requires GapOk(ms.before, Ignored) && Closes(ms.name) && GapOk(ms.after, Ignored) && SlotOk(ms.slot, Ignored, Closes)
    requires Minify(rest) == Some(r)
    ensures Minify(GapText(ms.before, QuotedText(ms.name) + GapText(ms.after, ":" + SpellSlot(ms.slot, rest))))
         == Some(GapText([], QuotedText(ms.name) + GapText([], ":" + SpellSlot(Slot([], Tight(ms.slot.value), []), r))))
    decreases ms, 0
  {
    hide Minify, SlotOk, SpellSlot, Tight, GapOk, GapText, QuotedText, Closed;
    var v, v' := SpellSlot(ms.slot, rest), SpellSlot(Slot([], Tight(ms.slot.value), []), r);
    SlotMinified(ms.slot, rest, r);
    Kept(":", v, v');
    GapDropped(ms.after, ":" + v);
    NoGap(":" + v');
    LiteralKept(ms.name, GapText(ms.after, ":" + v));
    GapDropped(ms.before, QuotedText(ms.name) + GapText(ms.after, ":" + v));
    NoGap(QuotedText(ms.name) + (":" + v'));
  }

  /** Blanks and comments between the tokens of a text are dropped, and nothing else is. */
  lemma MinifyIsTight(x: Slot)
    requires SlotOk(x, Ignored, Closes)
    ensures Minify(SpellSlot(x, "")) == Some(Spell(Tight(x.value), ""))
  {
    hide SpellSlot, SlotOk, Spell, Tight;
    SlotMinified(x, "", "");
    UngappedSlot(Tight(x.value));
  }

  lemma UngappedSlot(s: Syntax)
    ensures SpellSlot(Slot([], s, []), "") == Spell(s, "")
  {
  }

  // ---------- printed texts ----------

  lemma {:induction false} WrittenClosed(xs: seq<Piece>)
    requires WellFormedPieces(xs)
    ensures Closed(WrittenAll(xs))
  {
    hide WellFormedPiece, Written, Closed;
    if xs == [] {
      NothingClosed();
    } else {
      PieceClosed(xs[0], WrittenAll(xs[1..]));
      WrittenClosed(xs[1..]);
    }
  }

  lemma NothingClosed()
    ensures Closed("")
  {
  }

  lemma PlainClosed(x: string, rest: string)
    requires forall i :: 0 <= i < |x| ==> x[i] != '\"' && x[i] != '\\'
    ensures Closed(x + rest) == Closed(rest)
  {
    if x == "" {
      assert x + rest == rest;
    } else {
      assert (x + rest)[1..] == x[1..] + rest;
      PlainClosed(x[1..], rest);
    }
  }

  lemma UnitClosed(digits: string, rest: string)
    requires AllHex(digits)
    ensures Closed((['\\', 'u'] + digits) + rest) == Closed(rest)
  {
    var t := (['\\', 'u'] + digits) + rest;
    assert t[2..] == digits + rest;
    PlainClosed(digits, rest);
  }

  lemma PieceClosed(x: Piece, rest: string)
    requires WellFormedPiece(x)
    ensures Closed(Written(x) + rest) == Closed(rest)
  {
    hide AllHex, HexOfFour;
    match x
    case Plain(ch) => PlainClosed([ch], rest);
    case Short(letter) => assert (['\\', letter] + rest)[2..] == rest;
    case Single(digits) => UnitClosed(digits, rest);
    case Pair(high, low) =>
      var first, second := ['\\', 'u'] + high, ['\\', 'u'] + low;
      assert Written(x) + rest == first + (second + rest);
      UnitClosed(high, second + rest);
      UnitClosed(low, rest);
  }

  lemma SpelledCloses(q: Quoted)
    requires Spelled(q)
    ensures Closes(q)
  {
    hide WrittenAll, BytesAll, Closed, CString;
    var xs :| Spells(q, xs);
    WrittenClosed(xs);
  }

  lemma {:induction false} TightLayout(j: Json, format: bool, d: nat, d': nat)
    ensures Tight(Layout(j, format, d)) == Layout(j, false, d')
    decreases j, 1
  {
    hide LiteralOf, Decimal;
    match j
    case Array(ns) => if ns.Node? { TightItems(ns, [], format, d + 1, d' + 1); }
    case Object(ns) => if ns.Node? { TightFields(ns, format, d, d'); }
    case _ =>
  }

  lemma {:induction false} TightItems(ns: Nodes, before: Gap, format: bool, d: nat, d': nat)
    requires ns.Node?
    ensures TightElements(LayoutItems(ns, before, format, d)) == LayoutItems(ns, [], false, d')
    decreases ns, 0
  {
    hide Layout, Tight;
    TightLayout(ns.value, format, d, d');
    if ns.next.Node? { TightItems(ns.next, One(' ', format), format, d, d'); }
  }

  lemma {:induction false} TightFields(ns: Nodes, format: bool, d: nat, d': nat)
    requires ns.Node?
    ensures TightMembers(LayoutMembers(ns, format, d)) == LayoutMembers(ns, false, d')
    decreases ns, 0
  {
    hide Layout, Tight, LiteralOf;
    TightLayout(ns.value, format, d + 1, d' + 1);
    if ns.next.Node? { TightFields(ns.next, format, d, d'); }
  }

  lemma LayoutIgnored(j: Json, format: bool, d: nat)
    requires Printable(j)
    ensures SyntaxOk(Layout(j, format, d), Ignored, Closes)
  {
    hide Layout, Spelled, Closes, SyntaxOk;
    LayoutSpells(j, format, d);
    forall q | Spelled(q) ensures Closes(q) { SpelledCloses(q); }
    assert Covers(Space, Ignored) && Includes(Spelled, Closes);
    Weaken(Layout(j, format, d), Space, Spelled, Ignored, Closes);
  }

  /** Minifying what cJSON_Print gives is what cJSON_PrintUnformatted gives. */
  lemma MinifyPrinted(j: Json, format: bool)
    requires Printable(j)
    ensures Minify(Text(j, format, 0)) == Some(Text(j, false, 0))
  {
    hide Text, Layout, Spell, Tight, SyntaxOk, Minify;
    var t, plain := Text(j, format, 0), Text(j, false, 0);
    TextLaid(j, format, 0, "");
    TextLaid(j, false, 0, "");
    assert t + "" == t && plain + "" == plain;
    LayoutIgnored(j, format, 0);
    MinifyNothing();
    SyntaxMinified(Layout(j, format, 0), "", "");
    TightLayout(j, format, 0, 0);
  }

  lemma MinifyNothing()
    ensures Minify("") == Some("")
  {
  }
}
