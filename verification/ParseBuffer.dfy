/** The parse buffer with its moving offset and depth; every method does what the functions of Parsing say. */
module ParseBuffers {
  import opened Basics
  import opened CStrings
  import opened JsonModel
  import opened Literals
  import opened Pointers
  import P = Parsing

  function PrependNodes(front: Nodes, r: Option<(Nodes, nat)>): Option<(Nodes, nat)> {
    if r.None? then None else Some((Concat(front, r.value.0), r.value.1))
  }

  lemma PrependEnd(r: Option<(Nodes, nat)>)
    ensures PrependNodes(End, r) == r
  {
  }

  lemma PrependAppended(front: Nodes, key: string, v: Json, r: Option<(Nodes, nat)>)
    ensures PrependNodes(front, if r.None? then None else Some((Node(key, v, r.value.0), r.value.1)))
         == PrependNodes(Append(front, key, v), r)
  {
    if r.Some? {
      AppendIsConcat(front, key, v);
      ConcatAssociates(front, Node(key, v, End), r.value.0);
    }
  }

  lemma PrependLast(front: Nodes, key: string, v: Json, e: nat)
    ensures PrependNodes(front, Some((Node(key, v, End), e))) == Some((Append(front, key, v), e))
  {
    AppendIsConcat(front, key, v);
  }

  class ParseBuffer {
    const content: seq<char>
    var offset: nat
    var depth: nat

    constructor (content: seq<char>, offset: nat)
      requires P.Terminated(content) && offset < |content|
      ensures this.content == content && this.offset == offset && depth == 0 && Valid()
    {
      this.content, this.offset, this.depth := content, offset, 0;
    }

    predicate Valid()
      reads this
    {
      P.Terminated(content) && offset < |content|
    }

    method SkipWhitespace()
      requires Valid()
      modifies this`offset
      ensures Valid() && offset == P.SkipWhitespace(content, old(offset))
    {
      while offset < |content| && content[offset] <= 32 as char
        invariant offset <= |content|
        invariant P.SkipSpaces(content, offset) == P.SkipSpaces(content, old(offset))
        decreases |content| - offset
      {
        offset := offset + 1;
      }
      if offset == |content| { offset := offset - 1; }
    }

    /** Copies the number characters, at most 63 of them. */
    method CopyNumber() returns (copy: string)
      requires Valid()
      ensures copy == content[offset..offset + P.RunLength(content, offset, 0)]
    {
      var i := 0;
      copy := "";
      while i < P.NUMBER_BUFFER - 1 && offset + i < |content| && P.NumberChar(content[offset + i])
        invariant 0 <= i < P.NUMBER_BUFFER && offset + i <= |content| && copy == content[offset..offset + i]
        invariant P.RunLength(content, offset, i) == P.RunLength(content, offset, 0)
      {
        copy, i := copy + [content[offset + i]], i + 1;
      }
    }

    method ParseNumber() returns (r: Option<Json>)
      requires Valid()
      modifies this`offset
      ensures Valid()
      ensures r.None? ==> P.ParseNumber(content, old(offset)) == None
      ensures r.Some? ==> r.value.Number? && P.ParseNumber(content, old(offset)) == Some((r.value.num, offset))
    {
      hide P.RunLength, P.ReadInteger;
      var copy := CopyNumber();
      var read := P.ReadInteger(copy);
      if read.None? { return None; }
      offset := offset + read.value.1;
      return Some(Number(read.value.0));
    }

    method ParseStringInto() returns (r: Option<string>)
      requires Valid()
      modifies this`offset
      ensures Valid()
      ensures r.None? ==> ParseString(content, old(offset)) == None
      ensures r.Some? ==> ParseString(content, old(offset)) == Some((r.value, offset))
    {
      var parsed := ParseStringLoop(content, offset);
      if parsed.None? { return None; }
      offset := parsed.value.1;
      return Some(parsed.value.0);
    }

    method ParseLiteral(word: string) returns (ok: bool)
      requires Valid() && word != "" && NulFree(word)
      modifies this`offset
      ensures Valid()
      ensures ok <==> Has(content, old(offset), word)
      ensures offset == if ok then old(offset) + |word| else old(offset)
    {
      ok := Has(content, offset, word);
      if ok {
        HasAt(content, offset, word, |word| - 1);
        offset := offset + |word|;
      }
    }

    method ParseValue() returns (r: Option<Json>)
      requires Valid()
      modifies this
      ensures Valid()
      ensures r.None? ==> P.ParseValue(content, old(offset), old(depth)) == None
      ensures r.Some? ==> depth == old(depth) && P.ParseValue(content, old(offset), depth) == Some((r.value, offset))
      decreases |content| - offset, 1
    {
      var ok := ParseLiteral("null");
      if ok { return Some(Null); }
      ok := ParseLiteral("false");
      if ok { return Some(False); }
      ok := ParseLiteral("true");
      if ok { return Some(True); }
      if content[offset] == '\"' {
        var s := ParseStringInto();
        return if s.None? then None else Some(Str(s.value));
      }
      if content[offset] == '-' || '0' <= content[offset] <= '9' {
        r := ParseNumber();
      } else if content[offset] == '[' {
        r := ParseArray();
      } else if content[offset] == '{' {
        r := ParseObject();
      } else {
        r := None;
      }
    }

    method ParseArray() returns (r: Option<Json>)
      requires Valid() && content[offset] == '['
      modifies this
      ensures Valid()
      ensures r.None? ==> P.ParseArray(content, old(offset), old(depth)) == None
      ensures r.Some? ==> depth == old(depth) && P.ParseArray(content, old(offset), depth) == Some((r.value, offset))
      decreases |content| - offset, 0
    {
      if depth >= P.NESTING_LIMIT { return None; }
      depth := depth + 1;
      offset := offset + 1;
      SkipWhitespace();
      if content[offset] == ']' {
        depth, offset := depth - 1, offset + 1;
        return Some(Array(End));
      }
      var head := ParseElements();
      if head.None? { return None; }
      depth := depth - 1;
      return Some(Array(head.value));
    }

    /** The loop over the array elements, and the closing bracket. */
    method ParseElements() returns (r: Option<Nodes>)
      requires Valid()
      modifies this
      ensures Valid()
      ensures r.None? ==> P.ParseItems(content, old(offset), old(depth)) == None
      ensures r.Some? ==> depth == old(depth) && P.ParseItems(content, old(offset), depth) == Some((r.value, offset))
      decreases |content| - offset, 4
    {
      hide P.ParseItems, P.ParseMembers, P.ParseMember, P.ParseValue, P.SkipWhitespace, PrependNodes, Append;
      ghost var whole := P.ParseItems(content, offset, depth);
      PrependEnd(whole);
      var head, more, next := End, true, offset;
      while more
        invariant Valid() && old(offset) <= next && depth == old(depth)
        invariant more ==> next < |content| && whole == PrependNodes(head, P.ParseItems(content, next, depth))
        invariant !more ==> whole == (if content[offset] == ']' then Some((head, offset + 1)) else None)
        decreases |content| - next, more
      {
        offset := next;
        ghost var start, front := offset, head;
        SkipWhitespace();
        var item := ParseValue();
        if item.None? {
          ItemFails(content, start, old(depth), front);
          return None;
        }
        ghost var end := offset;
        SkipWhitespace();
        ItemRound(content, start, depth, front, item.value, end, offset);
        head := Append(head, "", item.value);
        more, next := content[offset] == ',', offset + 1;
      }
      if content[offset] != ']' { return None; }
      offset := offset + 1;
      return Some(head);
    }

    method ParseMember() returns (r: Option<(string, Json)>)
      requires Valid()
      modifies this
      ensures Valid()
      ensures r.None? ==> P.ParseMember(content, old(offset), old(depth)) == None
      ensures r.Some? ==> depth == old(depth)
      ensures r.Some? ==> P.ParseMember(content, old(offset), depth) == Some((r.value.0, r.value.1, offset))
      decreases |content| - offset, 2
    {
      hide P.ParseValue, P.SkipWhitespace, ParseString;
      SkipWhitespace();
      var key := ParseStringInto();
      if key.None? { return None; }
      SkipWhitespace();
      if content[offset] != ':' { return None; }
      offset := offset + 1;
      SkipWhitespace();
      var v := ParseValue();
      if v.None? { return None; }
      return Some((key.value, v.value));
    }

    method ParseObject() returns (r: Option<Json>)
      requires Valid() && content[offset] == '{'
      modifies this
      ensures Valid()
      ensures r.None? ==> P.ParseObject(content, old(offset), old(depth)) == None
      ensures r.Some? ==> depth == old(depth) && P.ParseObject(content, old(offset), depth) == Some((r.value, offset))
      decreases |content| - offset, 0
    {
      if depth >= P.NESTING_LIMIT { return None; }
      depth := depth + 1;
      offset := offset + 1;
      SkipWhitespace();
      if content[offset] == '}' {
        depth, offset := depth - 1, offset + 1;
        return Some(Object(End));
      }
      var head := ParseMembers();
      if head.None? { return None; }
      depth := depth - 1;
      return Some(Object(head.value));
    }

    /** The loop over the object members, and the closing brace. */
    method ParseMembers() returns (r: Option<Nodes>)
      requires Valid()
      modifies this
      ensures Valid()
      ensures r.None? ==> P.ParseMembers(content, old(offset), old(depth)) == None
      ensures r.Some? ==> depth == old(depth) && P.ParseMembers(content, old(offset), depth) == Some((r.value, offset))
      decreases |content| - offset, 4
    {
      hide P.ParseItems, P.ParseMembers, P.ParseMember, P.ParseValue, P.SkipWhitespace, PrependNodes, Append;
      ghost var whole := P.ParseMembers(content, offset, depth);
      PrependEnd(whole);
      var head, more, next := End, true, offset;
      while more
        invariant Valid() && old(offset) <= next && depth == old(depth)
        invariant more ==> next < |content| && whole == PrependNodes(head, P.ParseMembers(content, next, depth))
        invariant !more ==> whole == (if content[offset] == '}' then Some((head, offset + 1)) else None)
        decreases |content| - next, more
      {
        offset := next;
        ghost var start, front := offset, head;
        var member := ParseMember();
        if member.None? {
          MemberFails(content, start, old(depth), front);
          return None;
        }
        ghost var end := offset;
        SkipWhitespace();
        MemberRound(content, start, depth, front, member.value.0, member.value.1, end, offset);
        head := Append(head, member.value.0, member.value.1);
        more, next := content[offset] == ',', offset + 1;
      }
      if content[offset] != '}' { return None; }
      offset := offset + 1;
      return Some(head);
    }
  }

  lemma ItemFails(c: seq<char>, start: nat, depth: nat, front: Nodes)
    requires P.Terminated(c) && start < |c|
    requires P.ParseValue(c, P.SkipWhitespace(c, start), depth) == None
    ensures PrependNodes(front, P.ParseItems(c, start, depth)) == None
  {
  }

  /** One round of the loop over array elements. */
  lemma ItemRound(c: seq<char>, start: nat, depth: nat, front: Nodes, item: Json, end: nat, e: nat)
    requires P.Terminated(c) && start < |c| && end < |c| && e == P.SkipWhitespace(c, end)
    requires P.ParseValue(c, P.SkipWhitespace(c, start), depth) == Some((item, end))
    ensures c[e] == ',' ==> e + 1 < |c|
    ensures PrependNodes(front, P.ParseItems(c, start, depth)) ==
      if c[e] == ',' then PrependNodes(Append(front, "", item), P.ParseItems(c, e + 1, depth))
      else if c[e] == ']' then Some((Append(front, "", item), e + 1))
      else None
  {
    hide P.ParseValue, P.SkipWhitespace, Append, Concat;
    if c[e] == ',' {
      PrependAppended(front, "", item, P.ParseItems(c, e + 1, depth));
    } else {
      PrependLast(front, "", item, e + 1);
    }
  }

  lemma MemberFails(c: seq<char>, start: nat, depth: nat, front: Nodes)
    requires P.Terminated(c) && start < |c|
    requires P.ParseMember(c, start, depth) == None
    ensures PrependNodes(front, P.ParseMembers(c, start, depth)) == None
  {
  }

  /** One round of the loop over object members. */
  lemma MemberRound(c: seq<char>, start: nat, depth: nat, front: Nodes, key: string, v: Json, end: nat, e: nat)
    requires P.Terminated(c) && start < |c| && end < |c| && e == P.SkipWhitespace(c, end)
    requires P.ParseMember(c, start, depth) == Some((key, v, end))
    ensures c[e] == ',' ==> e + 1 < |c|
    ensures PrependNodes(front, P.ParseMembers(c, start, depth)) ==
      if c[e] == ',' then PrependNodes(Append(front, key, v), P.ParseMembers(c, e + 1, depth))
      else if c[e] == '}' then Some((Append(front, key, v), e + 1))
      else None
  {
    hide P.ParseMember, P.SkipWhitespace, Append, Concat;
    if c[e] == ',' {
      PrependAppended(front, key, v, P.ParseMembers(c, e + 1, depth));
    } else {
      PrependLast(front, key, v, e + 1);
    }
  }

  method ParseWithOpts(text: string, requireTerminated: bool) returns (r: Option<(Json, nat)>)
    requires NulFree(text)
    ensures r == P.Parse(text, requireTerminated)
  {
    var c := text + "\0";
    var start := if |c| > 4 && c[..3] == [0xEF as char, 0xBB as char, 0xBF as char] then 3 else 0;
    var buffer := new ParseBuffer(c, start);
    buffer.SkipWhitespace();
    var item := buffer.ParseValue();
    if item.None? { return None; }
    if requireTerminated {
      buffer.SkipWhitespace();
      if c[buffer.offset] != '\0' { return None; }
    }
    return Some((item.value, buffer.offset));
  }
}
