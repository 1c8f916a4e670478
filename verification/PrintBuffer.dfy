/** The growing buffer a tree is printed into, and the printing loops over it. */
module PrintBuffers {
  import opened Basics
  import opened CStrings
  import opened JsonModel
  import opened Pointers
  import opened Printing

  const INT_MAX := 0x7FFF_FFFF
  const DEFAULT_BUFFER_SIZE := 256

  // ---------- facts about the text that the loops need ----------

  lemma {:induction false} EscapeAllJoin(a: string, b: string)
    ensures EscapeAll(a + b) == EscapeAll(a) + EscapeAll(b)
  {
    if a == "" {
      assert a + b == b;
    } else {
      assert (a + b)[0] == a[0] && (a + b)[1..] == a[1..] + b;
      EscapeAllJoin(a[1..], b);
    }
  }

  lemma EscapeAllSnoc(s: string, i: nat)
    requires i < |s|
    ensures EscapeAll(s[..i + 1]) == EscapeAll(s[..i]) + Escape(s[i])
    ensures |EscapeAll(s[..i + 1])| <= |EscapeAll(s)|
  {
    assert s[..i + 1] == s[..i] + [s[i]] && [s[i]][1..] == "";
    EscapeAllJoin(s[..i], [s[i]]);
    assert EscapeAll([s[i]]) == Escape(s[i]) + EscapeAll([s[i]][1..]);
    assert s == s[..i + 1] + s[i + 1..];
    EscapeAllJoin(s[..i + 1], s[i + 1..]);
  }

  lemma {:induction false} NothingToEscape(s: string)
    ensures |EscapeAll(s)| >= |s|
    ensures |EscapeAll(s)| == |s| ==> EscapeAll(s) == s
  {
    if s != "" { NothingToEscape(s[1..]); }
  }

  function Power10(k: nat): nat {
    if k == 0 then 1 else 10 * Power10(k - 1)
  }

  lemma {:induction false} DecimalLength(n: nat, k: nat)
    requires k > 0 && n < Power10(k)
    ensures |Decimal(n)| <= k
  {
    if n >= 10 { DecimalLength(n / 10, k - 1); }
  }

  /** The number fits the 26 characters that sprintf prints into. */
  lemma NumberFits(n: int)
    requires -TEN_TO_15 < n < TEN_TO_15
    ensures |NumberText(n)| <= 25
  {
    assert Power10(5) == 100_000 && Power10(10) == 10_000_000_000 && Power10(15) == TEN_TO_15;
    DecimalLength(if n < 0 then -n else n, 15);
  }

  // ---------- the buffer ----------

  class PrintBuffer {
    var buffer: array<char>
    var offset: nat
    var depth: nat
    const noalloc: bool
    const format: bool

    constructor (buffer: array<char>, noalloc: bool, format: bool)
      requires buffer.Length <= INT_MAX
      ensures this.buffer == buffer && Valid() && offset == 0 && depth == 0
      ensures this.noalloc == noalloc && this.format == format
    {
      this.buffer, this.offset, this.depth, this.noalloc, this.format := buffer, 0, 0, noalloc, format;
    }

    /** The offset stays inside the buffer, unless the buffer is empty. */
    predicate Valid()
      reads this
    {
      buffer.Length <= INT_MAX && (offset < buffer.Length || (buffer.Length == 0 && offset == 0))
    }

    /** The size beyond which the buffer does not grow. */
    function Limit(): (n: nat)
      reads this
      ensures n == if noalloc then buffer.Length else 2147483647
    {
      if noalloc then buffer.Length else INT_MAX
    }

    ghost function Printed(): seq<char>
      requires Valid()
      reads this, buffer
    {
      buffer[..offset]
    }

    /** `text` stands behind `before`, terminated; the offset may still be anywhere inside the text. */
    ghost predicate Wrote(before: seq<char>, text: string)
      reads this, buffer
    {
      && Valid()
      && |before| <= offset <= |before| + |text|
      && |before| + |text| + 2 <= buffer.Length
      && buffer[..|before| + |text|] == before + text
      && buffer[|before| + |text|] == '\0'
    }

    lemma WroteJoin(before: seq<char>, first: string, last: string)
      requires Wrote(before + first, last)
      ensures Wrote(before, first + last)
    {
      Associate(before, first, last);
    }

    /** Makes room for `needed` characters behind the offset, and one more. */
    method Ensure(needed: nat) returns (ok: bool)
      requires Valid()
      modifies this`buffer
      ensures Valid() && Limit() == old(Limit())
      ensures buffer == old(buffer) || (!noalloc && fresh(buffer))
      ensures ok <==> offset + needed + 1 <= Limit()
      ensures ok ==> offset + needed + 1 <= buffer.Length && Printed() == old(Printed())
    {
      if buffer.Length > 0 && offset >= buffer.Length { return false; }
      if needed > INT_MAX { return false; }
      var total := needed + offset + 1;
      if total <= buffer.Length { return true; }
      if noalloc { return false; }
      var newsize := 0;
      if total > INT_MAX / 2 {
        if total > INT_MAX { return false; }
        newsize := INT_MAX;
      } else {
        newsize := total * 2;
      }
      var newbuffer := new char[newsize];
      forall i | 0 <= i < offset + 1 && i < buffer.Length { newbuffer[i] := buffer[i]; }
      ghost var printed := buffer[..offset];
      forall i | 0 <= i < offset ensures newbuffer[..offset][i] == printed[i] { assert newbuffer[i] == buffer[i]; }
      assert newbuffer[..offset] == printed;
      buffer := newbuffer;
      return true;
    }

    /** Moves the offset to the terminator, which it finds by counting. */
    method UpdateOffset(ghost before: seq<char>, ghost text: string)
      requires Wrote(before, text) && NulFree(text)
      modifies this`offset
      ensures Valid() && offset == |before| + |text| && Printed() == before + text
    {
      ghost var end := |before| + |text|;
      forall i | offset <= i < end ensures buffer[i] != '\0' {
        assert buffer[i] == buffer[..end][i] == text[i - |before|];
      }
      var n := 0;
      while buffer[offset + n] != '\0'
        invariant 0 <= n && offset + n <= end
        decreases end - n
      {
        n := n + 1;
      }
      offset := offset + n;
    }

    /** What has been printed, in an array that is just large enough for it and the terminator. */
    method Copy() returns (copy: array<char>)
      requires Valid()
      ensures fresh(copy) && copy[..] == Printed() + "\0"
    {
      copy := new char[offset + 1];
      forall i | 0 <= i < offset { copy[i] := buffer[i]; }
      copy[offset] := '\0';
    }

    /** Stores the characters of `s` one after the other. */
    method Store(at: nat, s: string)
      requires at + |s| <= buffer.Length
      modifies buffer
      ensures buffer[..at + |s|] == old(buffer[..at]) + s
    {
      for i := 0 to |s|
        invariant buffer[..at + i] == old(buffer[..at]) + s[..i]
      {
        buffer[at + i] := s[i];
      }
    }

    /** Stores `s` and moves the offset behind it. */
    method Append(s: string, needed: nat) returns (ok: bool)
      requires Valid() && |s| <= needed
      modifies this`buffer, this`offset, buffer
      ensures Valid() && Limit() == old(Limit())
      ensures buffer == old(buffer) || (!noalloc && fresh(buffer))
      ensures ok <==> old(offset) + needed + 1 <= Limit()
      ensures ok ==> offset == old(offset) + |s| && Printed() == old(Printed()) + s
    {
      ok := Ensure(needed);
      if ok {
        Store(offset, s);
        offset := offset + |s|;
      }
    }

    /** Stores `s` and a terminator, without moving the offset. */
    method Place(s: string, needed: nat) returns (ok: bool)
      requires Valid() && |s| + 1 <= needed
      modifies this`buffer, buffer
      ensures Valid() && Limit() == old(Limit())
      ensures buffer == old(buffer) || (!noalloc && fresh(buffer))
      ensures ok <==> offset + needed + 1 <= Limit()
      ensures ok ==> Wrote(old(Printed()), s)
    {
      ok := Ensure(needed);
      if ok {
        Store(offset, s);
        Terminate(offset + |s|, old(Printed()), s);
      }
    }

    /** Stores `s` and a terminator, and moves the offset to the terminator. */
    method AppendTerminated(s: string) returns (ok: bool)
      requires Valid()
      modifies this`buffer, this`offset, buffer
      ensures Valid() && Limit() == old(Limit())
      ensures buffer == old(buffer) || (!noalloc && fresh(buffer))
      ensures ok <==> old(offset) + |s| + 2 <= Limit()
      ensures ok ==> Wrote(old(Printed()), s) && Printed() == old(Printed()) + s
    {
      ok := Place(s, |s| + 1);
      if ok { offset := offset + |s|; }
    }

    // ---------- scalars ----------

    /** Stores one character of a string literal, escaped where it has to be. */
    method StoreEscaped(at: nat, c: char)
      requires at + |Escape(c)| <= buffer.Length
      modifies buffer
      ensures buffer[..at + |Escape(c)|] == old(buffer[..at]) + Escape(c)
    {
      if c > 31 as char && c != '\"' && c != '\\' {
        Store(at, [c]);
      } else {
        var letter :=
          if c == '\\' then "\\"
          else if c == '\"' then "\""
          else if c == 8 as char then "b"
          else if c == 12 as char then "f"
          else if c == '\n' then "n"
          else if c == '\r' then "r"
          else if c == '\t' then "t"
          else ['u', '0', '0', HexDigit(c as nat / 16), HexDigit(c as nat % 16)];
        assert Escape(c) == ['\\'] + letter;
        Store(at, ['\\'] + letter);
      }
    }

    /** The number of extra characters that escaping costs. */
    method CountEscapes(s: string) returns (escapes: nat)
      ensures |s| + escapes == |EscapeAll(s)|
    {
      escapes := 0;
      for i := 0 to |s|
        invariant i + escapes == |EscapeAll(s[..i])|
      {
        EscapeAllSnoc(s, i);
        var c := s[i];
        if c == '\"' || c == '\\' || c == 8 as char || c == 12 as char || c == '\n' || c == '\r' || c == '\t' {
          escapes := escapes + 1;
        } else if c < 32 as char {
          escapes := escapes + 5;
        }
      }
      assert s[..|s|] == s;
    }

    method PrintString(s: string) returns (ok: bool)
      requires Valid()
      modifies this`buffer, buffer
      ensures Valid() && Limit() == old(Limit())
      ensures buffer == old(buffer) || (!noalloc && fresh(buffer))
      ensures ok <==> offset + |StringText(s)| + 2 <= Limit()
      ensures ok ==> Wrote(old(Printed()), StringText(s))
    {
      var escapes := CountEscapes(s);
      NothingToEscape(s);
      if escapes == 0 {
        ok := Place("\"" + s + "\"", |s| + escapes + 3);
      } else {
        ok := StoreString(s, |s| + escapes);
      }
    }

    /** Copies a string character by character, escaping where it has to. */
    method StoreAllEscaped(at: nat, s: string)
      requires at + |EscapeAll(s)| <= buffer.Length
      modifies buffer
      ensures buffer[..at + |EscapeAll(s)|] == old(buffer[..at]) + EscapeAll(s)
    {
      ghost var before := buffer[..at];
      var p := at;
      var i := 0;
      while i < |s|
        invariant 0 <= i <= |s|
        invariant p == at + |EscapeAll(s[..i])| <= buffer.Length
        invariant buffer[..p] == before + EscapeAll(s[..i])
      {
        EscapeAllSnoc(s, i);
        ghost var done, e := EscapeAll(s[..i]), Escape(s[i]);
        StoreEscaped(p, s[i]);
        Associate(before, done, e);
        p, i := p + |Escape(s[i])|, i + 1;
      }
      assert s[..|s|] == s;
    }

    /** The slow path: at least one character needs escaping. */
    method StoreString(s: string, length: nat) returns (ok: bool)
      requires Valid() && length == |EscapeAll(s)|
      modifies this`buffer, buffer
      ensures Valid() && Limit() == old(Limit())
      ensures buffer == old(buffer) || (!noalloc && fresh(buffer))
      ensures ok <==> offset + length + 4 <= Limit()
      ensures ok ==> Wrote(old(Printed()), StringText(s))
    {
      ok := Ensure(length + 3);
      if ok {
        Quote(s, length);
      }
    }

    method Quote(s: string, length: nat)
      requires Valid() && length == |EscapeAll(s)| && offset + length + 4 <= buffer.Length
      modifies buffer
      ensures Wrote(old(Printed()), StringText(s))
    {
      ghost var before, inner := Printed(), EscapeAll(s);
      var quote := "\"";
      Store(offset, quote);
      StoreAllEscaped(offset + 1, s);
      Associate(before, quote, inner);
      assert buffer[..offset + length + 1] == before + (quote + inner);
      Store(offset + length + 1, quote);
      Associate(before, quote + inner, quote);
      Terminate(offset + length + 2, before, quote + inner + quote);
    }

    method Terminate(at: nat, ghost before: seq<char>, ghost text: string)
      requires Valid() && |before| == offset && at == offset + |text| && at + 2 <= buffer.Length
      requires buffer[..at] == before + text
      modifies buffer
      ensures Wrote(before, text)
    {
      ghost var stored := buffer[..at];
      buffer[at] := '\0';
      assert buffer[..at] == stored;
    }

    method PrintNumber(n: int) returns (ok: bool)
      requires Valid() && -TEN_TO_15 < n < TEN_TO_15
      modifies this`buffer, this`offset, buffer
      ensures Valid() && Limit() == old(Limit())
      ensures buffer == old(buffer) || (!noalloc && fresh(buffer))
      ensures ok <==> old(offset) + |NumberText(n)| + 2 <= Limit()
      ensures ok ==> Wrote(old(Printed()), NumberText(n))
    {
      var text := NumberText(n);
      NumberFits(n);
      if |text| > 25 { return false; }
      ok := AppendTerminated(text);
    }

    // ---------- containers ----------

    method PrintScalar(j: Json) returns (ok: bool)
      requires Valid() && Storable(j) && !j.Array? && !j.Object?
      modifies this`buffer, this`offset, buffer
      ensures Valid() && Limit() == old(Limit())
      ensures buffer == old(buffer) || (!noalloc && fresh(buffer))
      ensures ok <==> Complete(j) && old(offset) + |Text(j, format, depth)| + 2 <= Limit()
      ensures ok ==> Wrote(old(Printed()), Text(j, format, depth))
    {
      match j
      case Null => ok := Place("null", 5);
      case False => ok := Place("false", 6);
      case True => ok := Place("true", 5);
      case Number(n) => ok := PrintNumber(n);
      case Str(s) => ok := PrintString(s);
      case _ => ok := false;
    }

    method PrintValue(j: Json) returns (ok: bool)
      requires Valid() && Storable(j)
      modifies this, buffer
      ensures Valid() && Limit() == old(Limit())
      ensures buffer == old(buffer) || (!noalloc && fresh(buffer))
      ensures ok <==> Complete(j) && old(offset) + |Text(j, format, old(depth))| + 2 <= Limit()
      ensures ok ==> depth == old(depth) && Wrote(old(Printed()), Text(j, format, depth))
      decreases j, 1
    {
      match j
      case Array(ns) => ok := PrintArray(ns);
      case Object(ns) => ok := PrintObject(ns);
      case _ => ok := PrintScalar(j);
    }

    /** Prints a value and finds its end. */
    method AppendValue(j: Json) returns (ok: bool)
      requires Valid() && Storable(j)
      modifies this, buffer
      ensures Valid() && Limit() == old(Limit())
      ensures buffer == old(buffer) || (!noalloc && fresh(buffer))
      ensures ok <==> Complete(j) && old(offset) + |Text(j, format, old(depth))| + 2 <= Limit()
      ensures ok ==> depth == old(depth) && Printed() == old(Printed()) + Text(j, format, depth)
      decreases j, 2
    {
      ghost var before, text := Printed(), Text(j, format, depth);
      ok := PrintValue(j);
      if ok {
        TextNulFree(j, format, depth);
        UpdateOffset(before, text);
      }
    }

    /** One round of the loop over array elements. */
    method PrintElement(ns: Nodes) returns (ok: bool)
      requires Valid() && ns.Node? && Storable(ns.value)
      modifies this, buffer
      ensures Valid() && Limit() == old(Limit())
      ensures buffer == old(buffer) || (!noalloc && fresh(buffer))
      ensures ok <==> Complete(ns.value) && old(offset) + |ElementText(ns, format, old(depth))| + 2 <= Limit()
      ensures ok ==> depth == old(depth) && Printed() == old(Printed()) + ElementText(ns, format, depth)
      decreases ns, 2
    {
      ghost var before, text, depth0 := Printed(), Text(ns.value, format, depth), depth;
      var comma := CommaText(ns.next.End?, format);
      ghost var element := ElementText(ns, format, depth);
      assert element == text + comma;
      ok := AppendValue(ns.value);
      if ok && ns.next.Node? {
        ok := AppendTerminated(comma);
        Associate(before, text, comma);
      }
    }

    method PrintArray(ns: Nodes) returns (ok: bool)
      requires Valid() && ChainStorable(ns, false)
      modifies this, buffer
      ensures Valid() && Limit() == old(Limit())
      ensures buffer == old(buffer) || (!noalloc && fresh(buffer))
      ensures ok <==> ChainComplete(ns) && old(offset) + |Text(Array(ns), format, old(depth))| + 2 <= Limit()
      ensures ok ==> depth == old(depth) && Wrote(old(Printed()), Text(Array(ns), format, depth))
      decreases ns, 5
    {
      ghost var before, body, text := Printed(), "[" + ItemsText(ns, format, depth + 1), Text(Array(ns), format, depth);
      assert text == body + "]";
      ok := PrintOpenArray(ns);
      if ok {
        ok := Close("]", 2, before, body);
      }
    }

    /** Everything up to the closing bracket. */
    method PrintOpenArray(ns: Nodes) returns (ok: bool)
      requires Valid() && ChainStorable(ns, false)
      modifies this, buffer
      ensures Valid() && Limit() == old(Limit())
      ensures buffer == old(buffer) || (!noalloc && fresh(buffer))
      ensures ok ==> ChainComplete(ns) && depth == old(depth) + 1
      ensures ok ==> Printed() == old(Printed()) + ("[" + ItemsText(ns, format, old(depth) + 1))
      ensures !ok ==> !(ChainComplete(ns) && old(offset) + |ItemsText(ns, format, old(depth) + 1)| + 3 <= Limit())
      decreases ns, 4
    {
      ghost var before, items := Printed(), ItemsText(ns, format, depth + 1);
      ok := Append("[", 1);
      if ok {
        depth := depth + 1;
        ok := PrintElements(ns);
        Associate(before, "[", items);
      }
    }

    /** The closing bracket, and one level less. */
    method Close(bracket: string, needed: nat, ghost before: seq<char>, ghost body: string) returns (ok: bool)
      requires Valid() && depth > 0 && needed == |bracket| + 1 && Printed() == before + body
      modifies this, buffer
      ensures Valid() && Limit() == old(Limit())
      ensures buffer == old(buffer) || (!noalloc && fresh(buffer))
      ensures ok <==> old(offset) + needed + 1 <= Limit()
      ensures ok ==> depth == old(depth) - 1 && Wrote(before, body + bracket)
    {
      ok := Place(bracket, needed);
      if ok { WroteJoin(before, body, bracket); }
      depth := depth - 1;
    }

    method PrintElements(ns: Nodes) returns (ok: bool)
      requires Valid() && ChainStorable(ns, false)
      modifies this, buffer
      ensures Valid() && Limit() == old(Limit())
      ensures buffer == old(buffer) || (!noalloc && fresh(buffer))
      ensures ok ==> ChainComplete(ns) && depth == old(depth)
      ensures ok ==> Printed() == old(Printed()) + ItemsText(ns, format, depth)
      ensures !ok ==> !(ChainComplete(ns) && old(offset) + |ItemsText(ns, format, old(depth))| + 2 <= Limit())
      decreases ns, 3
    {
      ghost var before, whole := Printed(), ItemsText(ns, format, depth);
      ghost var done := "";
      var current := ns;
      while current.Node?
        invariant Valid() && Limit() == old(Limit()) && depth == old(depth)
        invariant buffer == old(buffer) || (!noalloc && fresh(buffer))
        invariant ChainStorable(current, false) && ChainComplete(current) == ChainComplete(ns)
        invariant current == ns || current < ns
        invariant Printed() == before + done && whole == done + ItemsText(current, format, depth)
        decreases current
      {
        ghost var element, rest := ElementText(current, format, depth), ItemsText(current.next, format, depth);
        ok := PrintElement(current);
        if !ok { return; }
        Associate(before, done, element);
        Associate(done, element, rest);
        done := done + element;
        current := current.next;
      }
      assert done + "" == done;
      ok := true;
    }

    /** Prints a string and finds its end. */
    method AppendString(s: string) returns (ok: bool)
      requires Valid() && NulFree(s)
      modifies this`buffer, this`offset, buffer
      ensures Valid() && Limit() == old(Limit())
      ensures buffer == old(buffer) || (!noalloc && fresh(buffer))
      ensures ok <==> old(offset) + |StringText(s)| + 2 <= Limit()
      ensures ok ==> Printed() == old(Printed()) + StringText(s)
    {
      ghost var before, text := Printed(), StringText(s);
      ok := PrintString(s);
      if ok {
        StringNulFree(s);
        UpdateOffset(before, text);
      }
    }

    method PrintKey(key: string) returns (ok: bool)
      requires Valid() && NulFree(key)
      modifies this`buffer, this`offset, buffer
      ensures Valid() && Limit() == old(Limit())
      ensures buffer == old(buffer) || (!noalloc && fresh(buffer))
      ensures ok ==> Printed() == old(Printed()) + KeyText(key, format, depth)
      ensures !ok ==> old(offset) + |KeyText(key, format, depth)| + 1 > Limit()
    {
      ghost var before, text := Printed(), StringText(key);
      var tabs, colon := if format then Tabs(depth) else "", ColonText(format);
      ghost var whole := KeyText(key, format, depth);
      assert whole == tabs + text + colon;
      ok := true;
      if format { ok := Append(tabs, depth); }
      if ok {
        ok := AppendString(key);
        if ok {
          ok := Append(colon, |colon|);
          Associate(before, tabs, text);
          Associate(before, tabs + text, colon);
        }
      }
    }

    /** One round of the loop over object members. */
    method PrintMember(ns: Nodes) returns (ok: bool)
      requires Valid() && ns.Node? && NulFree(ns.key) && Storable(ns.value)
      modifies this, buffer
      ensures Valid() && Limit() == old(Limit())
      ensures buffer == old(buffer) || (!noalloc && fresh(buffer))
      ensures ok ==> Complete(ns.value) && depth == old(depth)
      ensures ok ==> Printed() == old(Printed()) + MemberText(ns, format, depth)
      ensures !ok ==> !(Complete(ns.value) && old(offset) + |MemberText(ns, format, old(depth))| + 2 <= Limit())
      decreases ns, 2
    {
      ghost var before, key, text := Printed(), KeyText(ns.key, format, depth), Text(ns.value, format, depth);
      var tail := TailText(ns.next.End?, format);
      ghost var member := MemberText(ns, format, depth);
      assert member == key + text + tail;
      ok := PrintKey(ns.key);
      if ok {
        ok := AppendValue(ns.value);
        if ok {
          ok := AppendTerminated(tail);
          Associate(before, key, text);
          Associate(before, key + text, tail);
        }
      }
    }

    method PrintMembers(ns: Nodes) returns (ok: bool)
      requires Valid() && ChainStorable(ns, true)
      modifies this, buffer
      ensures Valid() && Limit() == old(Limit())
      ensures buffer == old(buffer) || (!noalloc && fresh(buffer))
      ensures ok ==> ChainComplete(ns) && depth == old(depth)
      ensures ok ==> Printed() == old(Printed()) + MembersText(ns, format, depth)
      ensures !ok ==> !(ChainComplete(ns) && old(offset) + |MembersText(ns, format, old(depth))| + 2 <= Limit())
      decreases ns, 3
    {
      ghost var before, whole := Printed(), MembersText(ns, format, depth);
      ghost var done := "";
      var current := ns;
      while current.Node?
        invariant Valid() && Limit() == old(Limit()) && depth == old(depth)
        invariant buffer == old(buffer) || (!noalloc && fresh(buffer))
        invariant ChainStorable(current, true) && ChainComplete(current) == ChainComplete(ns)
        invariant current == ns || current < ns
        invariant Printed() == before + done && whole == done + MembersText(current, format, depth)
        decreases current
      {
        ghost var member, rest := MemberText(current, format, depth), MembersText(current.next, format, depth);
        ok := PrintMember(current);
        if !ok { return; }
        Associate(before, done, member);
        Associate(done, member, rest);
        done := done + member;
        current := current.next;
      }
      assert done + "" == done;
      ok := true;
    }

    method PrintObject(ns: Nodes) returns (ok: bool)
      requires Valid() && ChainStorable(ns, true)
      modifies this, buffer
      ensures Valid() && Limit() == old(Limit())
      ensures buffer == old(buffer) || (!noalloc && fresh(buffer))
      ensures ok <==> ChainComplete(ns) && old(offset) + |Text(Object(ns), format, old(depth))| + 2 <= Limit()
      ensures ok ==> depth == old(depth) && Wrote(old(Printed()), Text(Object(ns), format, depth))
      decreases ns, 5
    {
      ghost var before, body := Printed(), OpenText(format) + MembersText(ns, format, depth + 1);
      ghost var text := Text(Object(ns), format, depth);
      var close := CloseText(format, depth);
      assert text == body + close;
      ok := PrintOpenObject(ns);
      if ok {
        ok := Close(close, if format then depth + 1 else 2, before, body);
      }
    }

    /** Everything up to the line of the closing brace. */
    method PrintOpenObject(ns: Nodes) returns (ok: bool)
      requires Valid() && ChainStorable(ns, true)
      modifies this, buffer
      ensures Valid() && Limit() == old(Limit())
      ensures buffer == old(buffer) || (!noalloc && fresh(buffer))
      ensures ok ==> ChainComplete(ns) && depth == old(depth) + 1
      ensures ok ==> Printed() == old(Printed()) + (OpenText(format) + MembersText(ns, format, old(depth) + 1))
      ensures !ok ==>
        !(ChainComplete(ns) && old(offset) + |OpenText(format)| + |MembersText(ns, format, old(depth) + 1)| + 2 <= Limit())
      decreases ns, 4
    {
      ghost var before, members := Printed(), MembersText(ns, format, depth + 1);
      var open := OpenText(format);
      ok := Append(open, |open| + 1);
      if ok {
        depth := depth + 1;
        ok := PrintMembers(ns);
        Associate(before, open, members);
      }
    }
  }

  /** cJSON_PrintPreallocated: it succeeds exactly when the text, its terminator and one more character fit. */
  method PrintPreallocated(j: Json, buffer: array<char>, format: bool) returns (ok: bool)
    requires Storable(j) && buffer.Length <= INT_MAX
    modifies buffer
    ensures ok <==> Complete(j) && |Text(j, format, 0)| + 2 <= buffer.Length
    ensures ok ==> buffer[..|Text(j, format, 0)| + 1] == Text(j, format, 0) + "\0"
  {
    var p := new PrintBuffer(buffer, true, format);
    ok := p.PrintValue(j);
  }

  /** cJSON_Print and cJSON_PrintUnformatted: the text and its terminator in an array of just that size. */
  method Print(j: Json, format: bool) returns (printed: Option<array<char>>)
    requires Storable(j)
    ensures printed.Some? <==> Complete(j) && |Text(j, format, 0)| + 2 <= INT_MAX
    ensures printed.Some? ==> fresh(printed.value) && printed.value[..] == Text(j, format, 0) + "\0"
  {
    var buffer := new char[DEFAULT_BUFFER_SIZE];
    var p := new PrintBuffer(buffer, false, format);
    var ok := p.AppendValue(j);
    if !ok { return None; }
    assert p.Printed() == Text(j, format, 0);
    var copy := p.Copy();
    return Some(copy);
  }
}
